/** Call by call: when it goes through, what it writes, and that it writes nothing else. */
module Effects {
  import opened Outcomes
  import opened Calendar
  import opened Lifecycle
  import opened LifecycleRuns
  import Scope

  /** All requests but one as they were. */
  predicate OtherRequestsSame(db: Db, after: Db, request: Id) {
    after.requests.Keys == db.requests.Keys && forall q :: q in db.requests && q != request ==> after.requests[q] == db.requests[q]
  }

  predicate OtherGrantsSame(db: Db, after: Db, grant: Id) {
    after.grants.Keys == db.grants.Keys && forall g :: g in db.grants && g != grant ==> after.grants[g] == db.grants[g]
  }

  // ---------------------------------------------------------------- submitting a request

  /**
   A request is accepted exactly for a published dataset, from an existing user. It is stored under an id not
   used before, PENDING, with the user, the dataset and the criteria submitted; nothing else is written.
   */
  lemma SubmissionStoresWhatWasAsked(db: Db, user: Id, dataset: Id, criteria: Option<Scope.Criteria>)
    requires Inv(db)
    ensures var r := CreateRequest(db, user, dataset, criteria);
      && (r.Ok? <==> dataset in db.datasets && db.datasets[dataset] == Published && user in db.users)
      && (r.Ok? ==>
           exists q :: q !in db.requests && r.value.requests.Keys == db.requests.Keys + {q}
             && r.value.requests[q].user == user && r.value.requests[q].dataset == dataset
             && r.value.requests[q].criteria == criteria && r.value.requests[q].status == Pending)
      && (r.Ok? ==>
           && (forall q :: q in db.requests ==> r.value.requests[q] == db.requests[q])
           && r.value.users == db.users && r.value.datasets == db.datasets && r.value.grants == db.grants
           && r.value.extractions == db.extractions && r.value.downloads == db.downloads)
  {
    hide Inv;
    KnownIds(db);
    assert db.nextId !in db.requests;
  }

  /**
   From the submission to the end of any run: a grant that an approval gives for it, whenever that comes, is the
   submitter's, on the dataset asked for, and its scope is the override if there was one and the submitted
   criteria if not; and so it stays.
   */
  lemma SubmittedScopeIsGranted(db: Db, user: Id, dataset: Id, criteria: Option<Scope.Criteria>,
                                before: seq<Event>, approval: Event, later: seq<Event>, g: Id)
    requires Inv(db) && CreateRequest(db, user, dataset, criteria).Ok?
    requires AllSound(before) && Sound(approval) && AllSound(later)
    requires approval.EApprove? && approval.request == db.nextId
    ensures ExpiriesValid(db)
    ensures var submitted := Step(db, ECreateRequest(user, dataset, criteria));
      && Inv(submitted) && db.nextId in submitted.requests
      && var reviewed := Run(submitted, before);
      && ExpiriesValid(reviewed) && Inv(Step(reviewed, approval))
      && var granted := Step(reviewed, approval);
      && (g in granted.grants && g !in reviewed.grants ==>
           && granted.grants[g].user == user && granted.grants[g].dataset == dataset && granted.grants[g].request == db.nextId
           && granted.grants[g].scope == (if approval.scopeOverride.Some? then approval.scopeOverride else criteria)
           && (g in Run(granted, later).grants ==> SameGrant(granted.grants[g], Run(granted, later).grants[g])))
  {
    hide Inv, AllSound;
    KnownValid(db);
    var e := ECreateRequest(user, dataset, criteria);
    StepKeepsInv(db, e);
    var submitted := Step(db, e);
    assert submitted.requests[db.nextId] == Request(user, dataset, criteria, Pending);
    var reviewed := Run(submitted, before);
    RequestHistory(submitted, before, db.nextId);
    KnownValid(reviewed);
    StepKeepsInv(reviewed, approval);
    var granted := Step(reviewed, approval);
    if g in granted.grants && g !in reviewed.grants {
      WhoIsGranted(reviewed, approval, g);
      GrantHistory(granted, later, g);
    }
    hide Step, Run, SameGrant;
  }

  /** The grant an approval adds is for its request: its user, its dataset, and its criteria unless overridden. */
  lemma WhoIsGranted(db: Db, e: Event, g: Id)
    requires Inv(db) && Sound(e) && e.EApprove? && ExpiriesValid(db)
    requires g in Step(db, e).grants && g !in db.grants
    ensures e.request in db.requests
    ensures var q, grant := db.requests[e.request], Step(db, e).grants[g];
      && grant.request == e.request && grant.user == q.user && grant.dataset == q.dataset
      && grant.scope == if e.scopeOverride.Some? then e.scopeOverride else q.criteria
  {
    hide Inv, ComputeExpiry, ExpiriesValid;
  }

  // ---------------------------------------------------------------- reviewing, extending, revoking

  lemma RejectionExactly(db: Db, request: Id)
    ensures var r := RejectRequest(db, request);
      && (r.Ok? <==> request in db.requests && db.requests[request].status == Pending)
      && (request in db.requests && db.requests[request].status != Pending ==> r == Err(AlreadyReviewed(db.requests[request].status)))
      && (r.Ok? ==>
           && OtherRequestsSame(db, r.value, request)
           && r.value.requests[request].status == Rejected && r.value.requests[request].criteria == db.requests[request].criteria
           && r.value.requests[request].user == db.requests[request].user && r.value.requests[request].dataset == db.requests[request].dataset
           && r.value.users == db.users && r.value.datasets == db.datasets && r.value.grants == db.grants
           && r.value.extractions == db.extractions && r.value.downloads == db.downloads)
  {
  }

  lemma ExtensionExactly(db: Db, grant: Id, duration: GrantDuration, custom: Option<Date>)
    requires Inv(db) && (custom.Some? ==> Instant(custom.value, 0).Valid())
    ensures ExpiriesValid(db)
    ensures var r := ExtendGrant(db, grant, duration, custom);
      && (r.Ok? <==> grant in db.grants && db.grants[grant].status == Active && ComputeExpiry(db.grants[grant].expiresAt, duration, custom).Ok?)
      && (grant in db.grants && db.grants[grant].status == Revoked ==> r == Err(GrantNotActive))
      && (r.Ok? ==>
           && OtherGrantsSame(db, r.value, grant)
           && Ok(r.value.grants[grant].expiresAt) == ComputeExpiry(db.grants[grant].expiresAt, duration, custom)
           && r.value.grants[grant].status == Active && SameGrant(db.grants[grant], r.value.grants[grant])
           && r.value.users == db.users && r.value.datasets == db.datasets && r.value.requests == db.requests
           && r.value.extractions == db.extractions && r.value.downloads == db.downloads)
  {
    hide Inv, ComputeExpiry;
    KnownValid(db);
  }

  /** Exactly the extractions of these grants that are queued or processing fail; every other stays as it is. */
  predicate InFlightFail(db: Db, after: Db, gs: set<Id>) {
    && after.extractions.Keys == db.extractions.Keys
    && forall x :: x in db.extractions ==>
         var was, now := db.extractions[x], after.extractions[x];
         && now.grant == was.grant && now.scope == was.scope
         && now.status == if was.grant in gs && (was.status == Queued || was.status == Processing) then Failed else was.status
  }

  lemma RevocationExactly(db: Db, grant: Id)
    requires Inv(db)
    ensures var r := RevokeGrant(db, grant);
      && (r.Ok? <==> grant in db.grants && db.grants[grant].status == Active)
      && (r.Ok? ==>
           && OtherGrantsSame(db, r.value, grant)
           && r.value.grants[grant].status == Revoked && SameGrant(db.grants[grant], r.value.grants[grant])
           && r.value.grants[grant].expiresAt == db.grants[grant].expiresAt
           && db.grants[grant].user in db.users
           && r.value.users == db.users[db.grants[grant].user := db.users[db.grants[grant].user] - 1]
           && InFlightFail(db, r.value, {grant})
           && r.value.datasets == db.datasets && r.value.requests == db.requests && r.value.downloads == db.downloads)
  {
    hide Inv, WithDecrements, CountersAgree;
    KnownCounts(db);
    if RevokeGrant(db, grant).Ok? {
      KnownHolder(db, grant);
      OneCounterDrops(db.users, db.grants, grant);
    }
  }

  lemma KnownHolder(db: Db, grant: Id)
    requires Inv(db) && grant in db.grants
    ensures db.grants[grant].user in db.users
  {
    hide CountersAgree, RequestsAgree, ExpiriesValid;
  }

  lemma OneCounterDrops(users: map<Id, int>, grants: map<Id, Grant>, grant: Id)
    requires CountersAgree(users, grants) && grant in grants && grants[grant].status == Active && grants[grant].user in users
    ensures WithDecrements(users, grants, {grant}) == users[grants[grant].user := users[grants[grant].user] - 1]
  {
    RevocationCounts(users, grants, {grant});
    forall u ensures OfUser(grants, {grant}, u) == if grants[grant].user == u then {grant} else {} {}
    hide CountersAgree, OfUser;
  }

  /** The sweep revokes the ACTIVE grants of the users that are due, and no other. */
  lemma SweepExactly(db: Db, due: set<Id>)
    ensures var after := SweepUsers(db, due);
      && after.grants.Keys == db.grants.Keys
      && (forall g :: g in db.grants ==>
           && SameGrant(db.grants[g], after.grants[g]) && after.grants[g].expiresAt == db.grants[g].expiresAt
           && after.grants[g].status == if db.grants[g].user in due then Revoked else db.grants[g].status)
      && InFlightFail(db, after, ActiveOfAny(db.grants, due))
      && after.datasets == db.datasets && after.requests == db.requests && after.downloads == db.downloads
  {
    hide WithDecrements;
  }

  /** Deletion keeps every request, extraction and download log that hangs on another dataset. */
  lemma DeletionKeepsOthers(db: Db, dataset: Id, g: Id)
    requires Inv(db) && dataset in db.datasets
    ensures var after := DeleteDataset(db, dataset).value;
      && after.datasets == db.datasets - {dataset}
      && (forall q :: q in db.requests && db.requests[q].dataset != dataset ==> q in after.requests && after.requests[q] == db.requests[q])
      && (g in db.grants && db.grants[g].dataset != dataset ==> DownloadsOf(after.downloads, g) == DownloadsOf(db.downloads, g))
      && (g in db.grants && db.grants[g].dataset == dataset ==> DownloadsOf(after.downloads, g) == [])
  {
    hide Inv, DownloadsOf, Without, WithDecrements, WithFailed;
    DownloadsOfWithout(db.downloads, GrantsOn(WithRevoked(db.grants, ActiveOn(db.grants, dataset)), dataset), g);
  }

  // ---------------------------------------------------------------- extracting and downloading

  /**
   An extraction starts exactly for the holder of an ACTIVE grant that has not expired, within its scope; it
   is stored for that grant with the scope asked for, queued unless it was run within the call.
   */
  lemma ExtractionExactly(db: Db, user: Id, grant: Id, scope: Scope.Criteria, now: Instant, synchronous: Option<bool>)
    requires Inv(db)
    ensures var r := CreateExtraction(db, user, grant, scope, now, synchronous);
      && (r.Ok? <==>
           && grant in db.grants && db.grants[grant].user == user && db.grants[grant].status == Active
           && (now.date.Before(db.grants[grant].expiresAt.date)
               || (now.date == db.grants[grant].expiresAt.date && now.time < db.grants[grant].expiresAt.time))
           && Scope.ValidateScope(scope, db.grants[grant].scope).Ok?)
      && (grant in db.grants && db.grants[grant].user != user ==> r == Err(NotFound))
      && (grant in db.grants && db.grants[grant].user == user && db.grants[grant].status == Revoked ==> r == Err(GrantNotActive))
      && (r.Ok? ==>
           && db.nextId !in db.extractions
           && r.value.extractions == db.extractions[db.nextId := r.value.extractions[db.nextId]]
           && r.value.extractions[db.nextId].grant == grant && r.value.extractions[db.nextId].scope == scope
           && r.value.extractions[db.nextId].status
              == (match synchronous case None => Queued case Some(true) => Complete case Some(false) => Failed)
           && r.value.users == db.users && r.value.datasets == db.datasets && r.value.requests == db.requests
           && r.value.grants == db.grants && r.value.downloads == db.downloads)
  {
    hide Inv, Scope.ValidateScope;
    KnownIds(db);
  }

  /** A download is logged exactly for the holder's COMPLETE extraction of an ACTIVE grant, and nothing else is written. */
  lemma DownloadExactly(db: Db, user: Id, extraction: Id)
    requires Inv(db)
    ensures var r := DownloadExtraction(db, user, extraction);
      && (extraction in db.extractions ==> db.extractions[extraction].grant in db.grants)
      && (r.Ok? <==>
           && extraction in db.extractions && db.extractions[extraction].status == Complete
           && db.grants[db.extractions[extraction].grant].user == user && db.grants[db.extractions[extraction].grant].status == Active)
      && (r.Ok? ==>
           && |r.value.downloads| == |db.downloads| + 1 && r.value.downloads[..|db.downloads|] == db.downloads
           && r.value.downloads[|db.downloads|].user == user && r.value.downloads[|db.downloads|].extraction == extraction
           && r.value.downloads[|db.downloads|].grant == db.extractions[extraction].grant
           && r.value == db.(downloads := r.value.downloads))
  {
    hide Inv;
    KnownIds(db);
  }

  /** A worker that starts leaves PROCESSING behind, one that ends COMPLETE or FAILED; it writes nothing else. */
  lemma WorkerExactly(db: Db, extraction: Id, complete: bool)
    requires Inv(db) && extraction in db.extractions
    ensures ExpiriesValid(db)
    ensures var started, ended := Step(db, EWorkerStart(extraction)), Step(db, EWorkerEnd(extraction, complete));
      && started == db.(extractions := started.extractions) && ended == db.(extractions := ended.extractions)
      && started.extractions.Keys == ended.extractions.Keys == db.extractions.Keys
      && started.extractions[extraction] == db.extractions[extraction].(status := Processing)
      && ended.extractions[extraction] == db.extractions[extraction].(status := if complete then Complete else Failed)
      && forall x :: x in db.extractions && x != extraction ==>
           started.extractions[x] == ended.extractions[x] == db.extractions[x]
  {
    hide Inv;
    KnownValid(db);
  }
}
