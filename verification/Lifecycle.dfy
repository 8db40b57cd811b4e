/**
 Requests, grants, extractions and downloads: what each call commits, and what every run of calls keeps.

 A `Db` is one committed state. Each operation is a function from the state it finds to the state it
 commits, or an error that commits nothing. Ids are drawn from a counter, as fresh as the UUIDs they stand for.
 */
module Lifecycle {
  import opened Outcomes
  import opened Calendar
  import Scope

  type Id = nat

  datatype DatasetStatus = Published | Draft | Archived
  datatype RequestStatus = Pending | Approved | Rejected
  datatype GrantStatus = Active | Revoked
  datatype ExtractionStatus = Queued | Processing | Complete | Failed

  datatype Request = Request(user: Id, dataset: Id, criteria: Option<Scope.Criteria>, status: RequestStatus)

  datatype Grant = Grant(user: Id, dataset: Id, request: Id, expiresAt: Instant, status: GrantStatus, scope: Option<Scope.Criteria>)

  datatype Extraction = Extraction(grant: Id, scope: Scope.Criteria, status: ExtractionStatus) {
    predicate InFlight() { status == Queued || status == Processing }
  }

  datatype Download = Download(grant: Id, user: Id, extraction: Id)

  datatype Db = Db(
    users: map<Id, int>,               // datasets_granted of every user
    datasets: map<Id, DatasetStatus>,
    requests: map<Id, Request>,
    grants: map<Id, Grant>,
    extractions: map<Id, Extraction>,
    downloads: seq<Download>,
    nextId: Id)

  datatype Error =
    | NotFound | AlreadyReviewed(was: RequestStatus) | GrantNotActive | GrantExpired | NotReady
    | OutOfScope(field: Scope.Field) | BadExpiry(why: ExpiryError)

  // ---------------------------------------------------------------- requests

  function CreateRequest(db: Db, user: Id, dataset: Id, criteria: Option<Scope.Criteria>): Result<Db, Error> {
    if dataset !in db.datasets || db.datasets[dataset] != Published || user !in db.users then Err(NotFound)
    else Ok(db.(requests := db.requests[db.nextId := Request(user, dataset, criteria, Pending)], nextId := db.nextId + 1))
  }

  function ApproveRequest(db: Db, request: Id, scopeOverride: Option<Scope.Criteria>,
                          duration: GrantDuration, custom: Option<Date>, now: Instant): Result<Db, Error>
    requires now.Valid() && (custom.Some? ==> Instant(custom.value, 0).Valid())
  {
    if request !in db.requests then Err(NotFound)
    else
      var r := db.requests[request];
      if r.status != Pending then Err(AlreadyReviewed(r.status))
      else
        var expiry := ComputeExpiry(now, duration, custom);
        if expiry.Err? then Err(BadExpiry(expiry.error))
        else
          var scope := if scopeOverride.Some? then scopeOverride else r.criteria;
          Ok(db.(grants := db.grants[db.nextId := Grant(r.user, r.dataset, request, expiry.value, Active, scope)],
                 requests := db.requests[request := r.(status := Approved)],
                 users := if r.user in db.users then db.users[r.user := db.users[r.user] + 1] else db.users,
                 nextId := db.nextId + 1))
  }

  function RejectRequest(db: Db, request: Id): Result<Db, Error> {
    if request !in db.requests then Err(NotFound)
    else
      var r := db.requests[request];
      if r.status != Pending then Err(AlreadyReviewed(r.status))
      else Ok(db.(requests := db.requests[request := r.(status := Rejected)]))
  }

  // ---------------------------------------------------------------- grants

  function ExtendGrant(db: Db, grant: Id, duration: GrantDuration, custom: Option<Date>): Result<Db, Error>
    requires custom.Some? ==> Instant(custom.value, 0).Valid()
    requires grant in db.grants ==> db.grants[grant].expiresAt.Valid()
  {
    if grant !in db.grants then Err(NotFound)
    else
      var g := db.grants[grant];
      if g.status != Active then Err(GrantNotActive)
      else
        var expiry := ComputeExpiry(g.expiresAt, duration, custom);
        if expiry.Err? then Err(BadExpiry(expiry.error))
        else Ok(db.(grants := db.grants[grant := g.(expiresAt := expiry.value)]))
  }

  /** Those of `gs` that belong to `user`. */
  function OfUser(grants: map<Id, Grant>, gs: set<Id>, user: Id): set<Id> {
    set g | g in gs && g in grants && grants[g].user == user
  }

  /** One decrement per grant lost, each clamped at zero. */
  function Decremented(count: int, lost: nat): int {
    if lost == 0 then count else Max(0, count - lost)
  }

  function WithRevoked(grants: map<Id, Grant>, gs: set<Id>): map<Id, Grant> {
    map g | g in grants :: if g in gs then grants[g].(status := Revoked) else grants[g]
  }

  function WithDecrements(users: map<Id, int>, grants: map<Id, Grant>, gs: set<Id>): map<Id, int> {
    map u | u in users :: Decremented(users[u], |OfUser(grants, gs, u)|)
  }

  function WithFailed(extractions: map<Id, Extraction>, gs: set<Id>): map<Id, Extraction> {
    map x | x in extractions ::
      if extractions[x].grant in gs && extractions[x].InFlight() then extractions[x].(status := Failed) else extractions[x]
  }

  /**
   The joint effect of revoking the grants `gs`, in whatever order: their status, their users' counters, and
   the failure of every extraction still in flight for them.
   */
  function Revocation(db: Db, gs: set<Id>): Db {
    db.(grants := WithRevoked(db.grants, gs),
        users := WithDecrements(db.users, db.grants, gs),
        extractions := WithFailed(db.extractions, gs))
  }

  function RevokeGrant(db: Db, grant: Id): Result<Db, Error> {
    if grant !in db.grants then Err(NotFound)
    else if db.grants[grant].status != Active then Err(GrantNotActive)
    else Ok(Revocation(db, {grant}))
  }

  function ActiveOn(grants: map<Id, Grant>, dataset: Id): set<Id> {
    set g | g in grants && grants[g].dataset == dataset && grants[g].status == Active
  }

  function ActiveOf(grants: map<Id, Grant>, user: Id): set<Id> {
    set g | g in grants && grants[g].user == user && grants[g].status == Active
  }

  function ActiveOfAny(grants: map<Id, Grant>, users: set<Id>): set<Id> {
    set g | g in grants && grants[g].user in users && grants[g].status == Active
  }

  /** `process_pending_deletions` for the users whose grace period is over. */
  function SweepUsers(db: Db, users: set<Id>): Db {
    Revocation(db, ActiveOfAny(db.grants, users))
  }

  // ---------------------------------------------------------------- datasets

  function SetStatus(db: Db, dataset: Id, status: DatasetStatus): Db {
    db.(datasets := db.datasets[dataset := status])
  }

  function ArchiveDataset(db: Db, dataset: Id): Result<Db, Error> {
    if dataset !in db.datasets then Err(NotFound)
    else Ok(Revocation(SetStatus(db, dataset, Archived), ActiveOn(db.grants, dataset)))
  }

  /** Deleting the dataset row takes its requests and grants with it, and the grants take theirs. */
  function Cascade(db: Db, dataset: Id): Db {
    var gone := GrantsOn(db.grants, dataset);
    db.(datasets := db.datasets - {dataset},
        requests := OtherRequests(db.requests, dataset),
        grants := OtherGrants(db.grants, dataset),
        extractions := map x | x in db.extractions && db.extractions[x].grant !in gone :: db.extractions[x],
        downloads := Without(db.downloads, gone))
  }

  function GrantsOn(grants: map<Id, Grant>, dataset: Id): set<Id> {
    set g | g in grants && grants[g].dataset == dataset
  }

  function OtherGrants(grants: map<Id, Grant>, dataset: Id): map<Id, Grant> {
    map g | g in grants && grants[g].dataset != dataset :: grants[g]
  }

  function OtherRequests(requests: map<Id, Request>, dataset: Id): map<Id, Request> {
    map r | r in requests && requests[r].dataset != dataset :: requests[r]
  }

  function Without(downloads: seq<Download>, grants: set<Id>): seq<Download> {
    if downloads == [] then []
    else Without(downloads[..|downloads| - 1], grants)
         + (if downloads[|downloads| - 1].grant in grants then [] else [downloads[|downloads| - 1]])
  }

  function DeleteDataset(db: Db, dataset: Id): Result<Db, Error> {
    if dataset !in db.datasets then Err(NotFound)
    else Ok(Cascade(Revocation(db, ActiveOn(db.grants, dataset)), dataset))
  }

  // ---------------------------------------------------------------- extractions and downloads

  /**
   `extract_grant_subset` with `create_extraction`. A small dataset is extracted within the call, and
   `synchronous` then says how that ended; otherwise the row stays queued for a worker.
   */
  function CreateExtraction(db: Db, user: Id, grant: Id, scope: Scope.Criteria, now: Instant, synchronous: Option<bool>): Result<Db, Error> {
    if grant !in db.grants || db.grants[grant].user != user then Err(NotFound)
    else
      var g := db.grants[grant];
      if g.status != Active then Err(GrantNotActive)
      else if !now.Before(g.expiresAt) then Err(GrantExpired)
      else
        var check := Scope.ValidateScope(scope, g.scope);
        if check.Err? then Err(OutOfScope(check.error))
        else
          var status := if synchronous.None? then Queued else if synchronous.value then Complete else Failed;
          Ok(db.(extractions := db.extractions[db.nextId := Extraction(grant, scope, status)], nextId := db.nextId + 1))
  }

  /** The extraction worker writes its status without looking at the one it finds. */
  function WorkerWrites(db: Db, extraction: Id, status: ExtractionStatus): Db {
    if extraction !in db.extractions then db
    else db.(extractions := db.extractions[extraction := db.extractions[extraction].(status := status)])
  }

  function DownloadExtraction(db: Db, user: Id, extraction: Id): Result<Db, Error> {
    if extraction !in db.extractions then Err(NotFound)
    else
      var x := db.extractions[extraction];
      if x.grant !in db.grants || db.grants[x.grant].user != user then Err(NotFound)
      else if x.status != Complete then Err(NotReady)
      else if db.grants[x.grant].status != Active then Err(GrantNotActive)
      else Ok(db.(downloads := db.downloads + [Download(x.grant, user, extraction)]))
  }

  // ---------------------------------------------------------------- runs

  datatype Event =
    | ECreateRequest(user: Id, dataset: Id, criteria: Option<Scope.Criteria>)
    | EApprove(request: Id, scopeOverride: Option<Scope.Criteria>, duration: GrantDuration, custom: Option<Date>, now: Instant)
    | EReject(request: Id)
    | EExtend(grant: Id, duration: GrantDuration, custom: Option<Date>)
    | ERevoke(grant: Id)
    | ESweep(users: set<Id>)
    | ESetStatus(dataset: Id, status: DatasetStatus)
    | EArchive(dataset: Id)
    | EDelete(dataset: Id)
    | EExtract(user: Id, grant: Id, scope: Scope.Criteria, now: Instant, synchronous: Option<bool>)
    | EWorkerStart(extraction: Id)
    | EWorkerEnd(extraction: Id, complete: bool)
    | EDownload(user: Id, extraction: Id)

  /** Clock readings and custom dates are real ones. */
  predicate Sound(e: Event) {
    && (e.EApprove? ==> e.now.Valid())
    && ((e.EApprove? || e.EExtend?) && e.custom.Some? ==> Instant(e.custom.value, 0).Valid())
  }

  function Kept(db: Db, r: Result<Db, Error>): Db {
    if r.Ok? then r.value else db
  }

  predicate ExpiriesValid(db: Db) {
    forall g :: g in db.grants ==> db.grants[g].expiresAt.Valid()
  }

  function Step(db: Db, e: Event): Db
    requires Sound(e) && ExpiriesValid(db)
  {
    match e
    case ECreateRequest(user, dataset, criteria) => Kept(db, CreateRequest(db, user, dataset, criteria))
    case EApprove(request, scopeOverride, duration, custom, now) => Kept(db, ApproveRequest(db, request, scopeOverride, duration, custom, now))
    case EReject(request) => Kept(db, RejectRequest(db, request))
    case EExtend(grant, duration, custom) => Kept(db, ExtendGrant(db, grant, duration, custom))
    case ERevoke(grant) => Kept(db, RevokeGrant(db, grant))
    case ESweep(users) => SweepUsers(db, users)
    case ESetStatus(dataset, status) => if dataset in db.datasets then SetStatus(db, dataset, status) else db
    case EArchive(dataset) => Kept(db, ArchiveDataset(db, dataset))
    case EDelete(dataset) => Kept(db, DeleteDataset(db, dataset))
    case EExtract(user, grant, scope, now, synchronous) => Kept(db, CreateExtraction(db, user, grant, scope, now, synchronous))
    case EWorkerStart(extraction) => WorkerWrites(db, extraction, Processing)
    case EWorkerEnd(extraction, complete) => WorkerWrites(db, extraction, if complete then Complete else Failed)
    case EDownload(user, extraction) => Kept(db, DownloadExtraction(db, user, extraction))
  }

  // ---------------------------------------------------------------- the invariant

  function GrantsFor(grants: map<Id, Grant>, request: Id): set<Id> {
    set g | g in grants && grants[g].request == request
  }

  /** `datasets_granted` is the number of the user's ACTIVE grants. */
  ghost predicate CountersAgree(users: map<Id, int>, grants: map<Id, Grant>) {
    forall u :: u in users ==> users[u] == |ActiveOf(grants, u)|
  }

  /** An APPROVED request has exactly one grant; a PENDING or REJECTED one has none. */
  ghost predicate RequestsAgree(requests: map<Id, Request>, grants: map<Id, Grant>) {
    forall r :: r in requests ==> |GrantsFor(grants, r)| == if requests[r].status == Approved then 1 else 0
  }

  ghost predicate Linked(db: Db) {
    && (forall r :: r in db.requests ==> r < db.nextId && db.requests[r].user in db.users && db.requests[r].dataset in db.datasets)
    && (forall g :: g in db.grants ==>
          && g < db.nextId && db.grants[g].user in db.users
          && db.grants[g].request in db.requests && db.requests[db.grants[g].request].dataset == db.grants[g].dataset)
    && (forall x :: x in db.extractions ==> x < db.nextId && db.extractions[x].grant in db.grants)
    && (forall i :: 0 <= i < |db.downloads| ==> db.downloads[i].grant in db.grants)
  }

  ghost predicate Inv(db: Db) {
    && Linked(db) && ExpiriesValid(db)
    && CountersAgree(db.users, db.grants) && RequestsAgree(db.requests, db.grants)
  }

  /** A portal with users and datasets and nothing requested yet. */
  lemma EmptyPortalSatisfiesInv(users: set<Id>, datasets: map<Id, DatasetStatus>, nextId: Id)
    ensures Inv(Db(map u | u in users :: 0, datasets, map[], map[], map[], [], nextId))
  {
    var db := Db(map u | u in users :: 0, datasets, map[], map[], map[], [], nextId);
    forall u | u in db.users ensures |ActiveOf(db.grants, u)| == 0 { assert ActiveOf(db.grants, u) == {}; }
  }

  /** Changes that leave every grant's owner, request and status alone leave the counts alone. */
  predicate SameStanding(grants: map<Id, Grant>, after: map<Id, Grant>) {
    && after.Keys == grants.Keys
    && forall g :: g in grants ==>
      && after[g].user == grants[g].user && after[g].request == grants[g].request && after[g].status == grants[g].status
  }

  lemma SameStandingSameCounts(users: map<Id, int>, requests: map<Id, Request>, grants: map<Id, Grant>, after: map<Id, Grant>)
    requires SameStanding(grants, after)
    requires CountersAgree(users, grants) && RequestsAgree(requests, grants)
    ensures CountersAgree(users, after) && RequestsAgree(requests, after)
  {
    forall u | u in users ensures ActiveOf(after, u) == ActiveOf(grants, u) {}
    forall r | r in requests ensures GrantsFor(after, r) == GrantsFor(grants, r) {}
  }

  /**
   Revoking ACTIVE grants never meets the clamp: each user's counter drops by exactly the number of grants
   lost, and is again the number of ACTIVE grants left.
   */
  lemma RevocationCounts(users: map<Id, int>, grants: map<Id, Grant>, gs: set<Id>)
    requires CountersAgree(users, grants)
    requires forall g :: g in gs ==> g in grants && grants[g].status == Active
    ensures CountersAgree(WithDecrements(users, grants, gs), WithRevoked(grants, gs))
    ensures forall u :: u in users ==>
      WithDecrements(users, grants, gs)[u] == users[u] - |OfUser(grants, gs, u)| && |OfUser(grants, gs, u)| <= users[u]
  {
    var after := WithRevoked(grants, gs);
    forall u | u in users
      ensures WithDecrements(users, grants, gs)[u] == users[u] - |OfUser(grants, gs, u)| == |ActiveOf(after, u)|
    {
      var lost := OfUser(grants, gs, u);
      assert ActiveOf(grants, u) == ActiveOf(after, u) + lost;
      assert ActiveOf(after, u) !! lost;
    }
  }

  lemma RevocationKeepsRequests(requests: map<Id, Request>, grants: map<Id, Grant>, gs: set<Id>)
    requires RequestsAgree(requests, grants)
    ensures RequestsAgree(requests, WithRevoked(grants, gs))
  {
    forall r | r in requests ensures GrantsFor(WithRevoked(grants, gs), r) == GrantsFor(grants, r) {}
  }

  lemma RevocationKeepsLinks(db: Db, gs: set<Id>)
    requires Linked(db) && ExpiriesValid(db)
    ensures Linked(Revocation(db, gs)) && ExpiriesValid(Revocation(db, gs))
  {
    hide OfUser, Decremented;
  }

  lemma RevocationKeepsInv(db: Db, gs: set<Id>)
    requires Inv(db)
    requires forall g :: g in gs ==> g in db.grants && db.grants[g].status == Active
    ensures Inv(Revocation(db, gs))
  {
    hide Linked, ExpiriesValid, RequestsAgree, CountersAgree, WithRevoked, WithDecrements, WithFailed;
    RevocationCounts(db.users, db.grants, gs);
    RevocationKeepsRequests(db.requests, db.grants, gs);
    RevocationKeepsLinks(db, gs);
  }

  lemma WithoutKeepsOthers(downloads: seq<Download>, grants: set<Id>)
    ensures forall i :: 0 <= i < |Without(downloads, grants)| ==>
      Without(downloads, grants)[i] in downloads && Without(downloads, grants)[i].grant !in grants
  {
    if downloads != [] {
      WithoutKeepsOthers(downloads[..|downloads| - 1], grants);
    }
  }

  lemma SameActiveElsewhere(grants: map<Id, Grant>, dataset: Id, u: Id)
    requires ActiveOn(grants, dataset) == {}
    ensures ActiveOf(OtherGrants(grants, dataset), u) == ActiveOf(grants, u)
  {
    assert forall g :: g in ActiveOf(grants, u) ==> g !in ActiveOn(grants, dataset);
  }

  lemma SameGrantsElsewhere(grants: map<Id, Grant>, dataset: Id, r: Id)
    requires forall g :: g in GrantsFor(grants, r) ==> grants[g].dataset != dataset
    ensures GrantsFor(OtherGrants(grants, dataset), r) == GrantsFor(grants, r)
  {
  }

  lemma CascadeKeepsCounts(db: Db, dataset: Id)
    requires Linked(db) && ActiveOn(db.grants, dataset) == {}
    requires CountersAgree(db.users, db.grants) && RequestsAgree(db.requests, db.grants)
    ensures CountersAgree(db.users, OtherGrants(db.grants, dataset))
    ensures RequestsAgree(OtherRequests(db.requests, dataset), OtherGrants(db.grants, dataset))
  {
    forall u { SameActiveElsewhere(db.grants, dataset, u); }
    forall r | r in OtherRequests(db.requests, dataset)
      ensures GrantsFor(OtherGrants(db.grants, dataset), r) == GrantsFor(db.grants, r)
    {
      SameGrantsElsewhere(db.grants, dataset, r);
    }
  }

  lemma CascadeKeepsLinks(db: Db, dataset: Id)
    requires Linked(db) && ExpiriesValid(db)
    ensures Linked(Cascade(db, dataset)) && ExpiriesValid(Cascade(db, dataset))
  {
    WithoutKeepsOthers(db.downloads, GrantsOn(db.grants, dataset));
    hide Without;
    var after := Cascade(db, dataset);
    assert forall g :: g in db.grants ==> g in after.grants || g in GrantsOn(db.grants, dataset);
  }

  lemma CascadeKeepsInv(db: Db, dataset: Id)
    requires Inv(db) && ActiveOn(db.grants, dataset) == {}
    ensures Inv(Cascade(db, dataset))
  {
    hide Linked, ExpiriesValid, RequestsAgree, CountersAgree, OtherGrants, OtherRequests, GrantsOn, Without;
    CascadeKeepsCounts(db, dataset);
    CascadeKeepsLinks(db, dataset);
  }

  lemma NoneActiveAfterRevocation(grants: map<Id, Grant>, dataset: Id)
    ensures ActiveOn(WithRevoked(grants, ActiveOn(grants, dataset)), dataset) == {}
  {
  }

  lemma StatusKeepsInv(db: Db, dataset: Id, status: DatasetStatus)
    requires Inv(db) && dataset in db.datasets
    ensures Inv(SetStatus(db, dataset, status))
  {
    hide CountersAgree, RequestsAgree;
  }

  lemma BulkRevocationKeepsInv(db: Db, e: Event)
    requires Inv(db) && Sound(e) && (e.ERevoke? || e.ESweep? || e.EArchive? || e.EDelete?)
    ensures Inv(Step(db, e))
  {
    hide WithRevoked, WithDecrements, WithFailed, Cascade, CountersAgree, RequestsAgree, Linked;
    match e
    case ERevoke(grant) => if RevokeGrant(db, grant).Ok? { RevocationKeepsInv(db, {grant}); }
    case ESweep(users) => RevocationKeepsInv(db, ActiveOfAny(db.grants, users));
    case EArchive(dataset) =>
      if dataset in db.datasets {
        StatusKeepsInv(db, dataset, Archived);
        RevocationKeepsInv(SetStatus(db, dataset, Archived), ActiveOn(db.grants, dataset));
      }
    case EDelete(dataset) =>
      if dataset in db.datasets {
        RevocationKeepsInv(db, ActiveOn(db.grants, dataset));
        NoneActiveAfterRevocation(db.grants, dataset);
        CascadeKeepsInv(Revocation(db, ActiveOn(db.grants, dataset)), dataset);
      }
  }

  lemma OneMoreActive(grants: map<Id, Grant>, added: Id, grant: Grant, u: Id)
    requires added !in grants && grant.status == Active
    ensures |ActiveOf(grants[added := grant], u)| == |ActiveOf(grants, u)| + (if u == grant.user then 1 else 0)
  {
    assert ActiveOf(grants[added := grant], u) == ActiveOf(grants, u) + (if u == grant.user then {added} else {});
  }

  lemma OneMoreFor(grants: map<Id, Grant>, added: Id, grant: Grant, r: Id)
    requires added !in grants
    ensures |GrantsFor(grants[added := grant], r)| == |GrantsFor(grants, r)| + (if r == grant.request then 1 else 0)
  {
    assert GrantsFor(grants[added := grant], r) == GrantsFor(grants, r) + (if r == grant.request then {added} else {});
  }

  lemma GrantingCounts(users: map<Id, int>, requests: map<Id, Request>, grants: map<Id, Grant>, added: Id, grant: Grant)
    requires CountersAgree(users, grants) && RequestsAgree(requests, grants)
    requires grant.request in requests && requests[grant.request].status == Pending
    requires added !in grants && grant.status == Active && grant.user in users
    ensures CountersAgree(users[grant.user := users[grant.user] + 1], grants[added := grant])
    ensures RequestsAgree(requests[grant.request := requests[grant.request].(status := Approved)], grants[added := grant])
  {
    hide ActiveOf, GrantsFor;
    forall u { OneMoreActive(grants, added, grant, u); }
    forall r { OneMoreFor(grants, added, grant, r); }
  }

  lemma ApproveKeepsInv(db: Db, request: Id, scopeOverride: Option<Scope.Criteria>, duration: GrantDuration, custom: Option<Date>, now: Instant)
    requires Inv(db) && now.Valid() && (custom.Some? ==> Instant(custom.value, 0).Valid())
    requires ApproveRequest(db, request, scopeOverride, duration, custom, now).Ok?
    ensures Inv(ApproveRequest(db, request, scopeOverride, duration, custom, now).value)
  {
    hide ComputeExpiry, CountersAgree, RequestsAgree;
    var after := ApproveRequest(db, request, scopeOverride, duration, custom, now).value;
    GrantingCounts(db.users, db.requests, db.grants, db.nextId, after.grants[db.nextId]);
  }

  lemma NewRequestHasNoGrant(db: Db, r: Request)
    requires Linked(db) && RequestsAgree(db.requests, db.grants) && r.status == Pending
    ensures RequestsAgree(db.requests[db.nextId := r], db.grants)
  {
    assert GrantsFor(db.grants, db.nextId) == {};
  }

  lemma CreateRequestKeepsInv(db: Db, user: Id, dataset: Id, criteria: Option<Scope.Criteria>)
    requires Inv(db)
    ensures Inv(Kept(db, CreateRequest(db, user, dataset, criteria)))
  {
    hide CountersAgree, RequestsAgree;
    NewRequestHasNoGrant(db, Request(user, dataset, criteria, Pending));
  }

  lemma RejectKeepsInv(db: Db, request: Id)
    requires Inv(db)
    ensures Inv(Kept(db, RejectRequest(db, request)))
  {
    hide CountersAgree;
  }

  lemma ExtendKeepsLinks(db: Db, grant: Id, expiry: Instant)
    requires Linked(db) && ExpiriesValid(db) && grant in db.grants && expiry.Valid()
    ensures var after := db.(grants := db.grants[grant := db.grants[grant].(expiresAt := expiry)]);
      Linked(after) && ExpiriesValid(after)
  {
  }

  lemma ExtendKeepsInv(db: Db, grant: Id, duration: GrantDuration, custom: Option<Date>)
    requires Inv(db) && (custom.Some? ==> Instant(custom.value, 0).Valid())
    ensures ExpiriesValid(db) && Inv(Kept(db, ExtendGrant(db, grant, duration, custom)))
  {
    hide Linked, CountersAgree, RequestsAgree, ComputeExpiry;
    if ExtendGrant(db, grant, duration, custom).Ok? {
      var after := ExtendGrant(db, grant, duration, custom).value;
      ExtendKeepsLinks(db, grant, after.grants[grant].expiresAt);
      SameStandingSameCounts(db.users, db.requests, db.grants, after.grants);
    }
  }

  lemma ExtractionStepsKeepInv(db: Db, e: Event)
    requires Inv(db) && (e.EExtract? || e.EWorkerStart? || e.EWorkerEnd? || e.EDownload?)
    ensures Inv(Step(db, e))
  {
    hide CountersAgree, RequestsAgree, Scope.ValidateScope;
    match e
    case EExtract(user, grant, scope, now, synchronous) =>
    case EWorkerStart(extraction) =>
    case EWorkerEnd(extraction, complete) =>
    case EDownload(user, extraction) =>
  }

  lemma StepKeepsInv(db: Db, e: Event)
    requires Inv(db) && Sound(e)
    ensures Inv(Step(db, e))
  {
    hide Inv;
    assert ExpiriesValid(db) by { KnownValid(db); }
    match e
    case ERevoke(_) => BulkRevocationKeepsInv(db, e);
    case ESweep(_) => BulkRevocationKeepsInv(db, e);
    case EArchive(_) => BulkRevocationKeepsInv(db, e);
    case EDelete(_) => BulkRevocationKeepsInv(db, e);
    case EApprove(request, scopeOverride, duration, custom, now) =>
      if ApproveRequest(db, request, scopeOverride, duration, custom, now).Ok? {
        ApproveKeepsInv(db, request, scopeOverride, duration, custom, now);
      }
    case ECreateRequest(user, dataset, criteria) => CreateRequestKeepsInv(db, user, dataset, criteria);
    case EReject(request) => RejectKeepsInv(db, request);
    case EExtend(grant, duration, custom) => ExtendKeepsInv(db, grant, duration, custom);
    case ESetStatus(dataset, status) => if dataset in db.datasets { StatusKeepsInv(db, dataset, status); }
    case _ => ExtractionStepsKeepInv(db, e);
  }

  lemma KnownValid(db: Db)
    requires Inv(db)
    ensures ExpiriesValid(db)
  {
  }
}
