/** What holds over whole runs of the portal: request and grant histories, revocation safety, bulk revocation. */
module LifecycleRuns {
  import opened Outcomes
  import opened Calendar
  import opened Lifecycle
  import Scope

  predicate AllSound(events: seq<Event>) {
    forall i :: 0 <= i < |events| ==> Sound(events[i])
  }

  /**
   The state after a run. Its contract is the invariant over all runs: every counter is the number of the
   user's ACTIVE grants, and every request has the number of grants its status calls for.
   */
  ghost function Run(db: Db, events: seq<Event>): (after: Db)
    requires Inv(db) && AllSound(events)
    ensures Inv(after)
  {
    if events == [] then db
    else
      var before := Run(db, events[..|events| - 1]);
      StepKeepsInv(before, events[|events| - 1]);
      Step(before, events[|events| - 1])
  }

  /** The property holds at every point of the run, its start and its end included. */
  ghost predicate Throughout(db: Db, events: seq<Event>, holds: Db -> bool)
    requires Inv(db) && AllSound(events)
  {
    holds(Run(db, events)) && (events != [] ==> Throughout(db, events[..|events| - 1], holds))
  }

  /** No step of the run is one of these, each judged in the state it is taken in. */
  ghost predicate Never(db: Db, events: seq<Event>, breaks: (Db, Event) -> bool)
    requires Inv(db) && AllSound(events)
  {
    events != [] ==>
      var most := events[..|events| - 1];
      !breaks(Run(db, most), events[|events| - 1]) && Never(db, most, breaks)
  }

  lemma KnownValidAll()
    ensures forall d: Db :: Inv(d) ==> ExpiriesValid(d)
  {
  }

  /** What exactly one kind of step can break holds throughout a run exactly if no such step is taken. */
  lemma {:induction false} HoldsExactlyIfNeverBroken(db: Db, events: seq<Event>, holds: Db -> bool, breaks: (Db, Event) -> bool)
    requires Inv(db) && AllSound(events) && holds(db)
    requires forall d: Db :: Inv(d) ==> ExpiriesValid(d)
    requires forall d: Db, e: Event :: Inv(d) && Sound(e) && holds(d) ==> (holds(Step(d, e)) <==> !breaks(d, e))
    ensures Throughout(db, events, holds) <==> Never(db, events, breaks)
  {
    hide Inv, Step, Sound;
    if events != [] {
      var last := |events| - 1;
      HoldsExactlyIfNeverBroken(db, events[..last], holds, breaks);
      assert Run(db, events) == Step(Run(db, events[..last]), events[last]);
    }
  }

  // ---------------------------------------------------------------- requests

  /** One step on one request: what was submitted is never rewritten, and a review is final. */
  predicate SameRequest(db: Db, after: Db, r: Id) {
    r in db.requests && r in after.requests ==>
      var was, now := db.requests[r], after.requests[r];
      && now.user == was.user && now.dataset == was.dataset && now.criteria == was.criteria
      && (was.status != Pending ==> now.status == was.status)
  }

  lemma RequestStep(db: Db, e: Event, r: Id)
    requires Inv(db) && Sound(e)
    ensures SameRequest(db, Step(db, e), r)
    ensures r !in db.requests && r in Step(db, e).requests ==> r == db.nextId
  {
    hide Inv;
    KnownIds(db);
    hide ComputeExpiry, Scope.ValidateScope, WithRevoked, WithDecrements, WithFailed, Without, OtherGrants;
  }

  /** Over every run: the submitted criteria stay as submitted, and APPROVED and REJECTED are never left. */
  lemma {:induction false} RequestHistory(db: Db, events: seq<Event>, r: Id)
    requires Inv(db) && AllSound(events) && r in db.requests
    ensures var after := Run(db, events);
      && db.nextId <= after.nextId && SameRequest(db, after, r)
      && (r in after.requests ==>
           |GrantsFor(after.grants, r)| == if after.requests[r].status == Approved then 1 else 0)
  {
    hide Inv, Step;
    assert r < db.nextId by { KnownIds(db); }
    if events != [] {
      var most := events[..|events| - 1];
      RequestHistory(db, most, r);
      RequestStep(Run(db, most), events[|events| - 1], r);
      IdsGrow(Run(db, most), events[|events| - 1]);
    }
    KnownCounts(Run(db, events));
  }

  lemma KnownIds(db: Db)
    requires Inv(db)
    ensures forall r :: r in db.requests ==> r < db.nextId
    ensures forall g :: g in db.grants ==> g < db.nextId
    ensures forall x :: x in db.extractions ==> x < db.nextId && db.extractions[x].grant in db.grants
    ensures ExpiriesValid(db)
  {
  }

  lemma KnownCounts(db: Db)
    requires Inv(db)
    ensures CountersAgree(db.users, db.grants) && RequestsAgree(db.requests, db.grants)
  {
  }

  // ---------------------------------------------------------------- grants

  /**
   Approval grants exactly what was asked for or what the admin put in its place, to the one who asked, until
   the expiry computed from now; that user's counter goes up by one, and nothing else is touched.
   */
  lemma ApprovalGrantsScope(db: Db, request: Id, scopeOverride: Option<Scope.Criteria>, duration: GrantDuration, custom: Option<Date>, now: Instant)
    requires Inv(db) && now.Valid() && (custom.Some? ==> Instant(custom.value, 0).Valid())
    ensures var r := ApproveRequest(db, request, scopeOverride, duration, custom, now);
      && (r.Ok? <==> request in db.requests && db.requests[request].status == Pending && ComputeExpiry(now, duration, custom).Ok?)
      && (r.Ok? ==>
           exists g :: g in r.value.grants && g !in db.grants
             && GrantsFor(r.value.grants, request) == {g}
             && r.value.grants[g].status == Active
             && r.value.grants[g].user == db.requests[request].user
             && r.value.grants[g].dataset == db.requests[request].dataset
             && r.value.grants[g].scope == (if scopeOverride.Some? then scopeOverride else db.requests[request].criteria)
             && Ok(r.value.grants[g].expiresAt) == ComputeExpiry(now, duration, custom))
      && (r.Ok? ==>
           && (forall g :: g in db.grants ==> g in r.value.grants && r.value.grants[g] == db.grants[g])
           && (forall q :: q in db.requests && q != request ==> q in r.value.requests && r.value.requests[q] == db.requests[q])
           && r.value.users == db.users[db.requests[request].user := db.users[db.requests[request].user] + 1]
           && r.value.datasets == db.datasets && r.value.extractions == db.extractions && r.value.downloads == db.downloads)
  {
    hide Inv, ComputeExpiry;
    KnownIds(db);
    var r := ApproveRequest(db, request, scopeOverride, duration, custom, now);
    if r.Ok? {
      PendingHasNoGrant(db, request);
      assert GrantsFor(r.value.grants, request) == {db.nextId};
    }
  }

  lemma PendingHasNoGrant(db: Db, request: Id)
    requires Inv(db) && request in db.requests && db.requests[request].status == Pending
    ensures GrantsFor(db.grants, request) == {} && db.requests[request].user in db.users
  {
    hide CountersAgree, ExpiriesValid;
    assert |GrantsFor(db.grants, request)| == 0;
  }

  /** A grant's owner, dataset, request and scope are fixed for life, and a grant once revoked is never active again. */
  predicate SameGrant(was: Grant, now: Grant) {
    && now.user == was.user && now.dataset == was.dataset && now.request == was.request && now.scope == was.scope
    && (was.status == Revoked ==> now.status == Revoked && now.expiresAt == was.expiresAt)
  }

  /** What a step may do to the grants: add one under the next id, drop some, and change the rest as `SameGrant` allows. */
  predicate GrantsMove(grants: map<Id, Grant>, nextId: Id, after: map<Id, Grant>) {
    forall g :: g in after ==> if g in grants then SameGrant(grants[g], after[g]) else g == nextId
  }

  lemma RevocationMoves(grants: map<Id, Grant>, nextId: Id, gs: set<Id>)
    ensures GrantsMove(grants, nextId, WithRevoked(grants, gs))
  {
  }

  lemma DeletionMoves(grants: map<Id, Grant>, nextId: Id, gs: set<Id>, dataset: Id)
    ensures GrantsMove(grants, nextId, OtherGrants(WithRevoked(grants, gs), dataset))
  {
  }

  lemma WriteMoves(grants: map<Id, Grant>, nextId: Id, g: Id, grant: Grant)
    requires if g in grants then SameGrant(grants[g], grant) else g == nextId
    ensures GrantsMove(grants, nextId, grants[g := grant])
  {
  }

  lemma BulkGrantStep(db: Db, e: Event)
    requires Inv(db) && Sound(e) && (e.ERevoke? || e.ESweep? || e.EArchive? || e.EDelete?)
    ensures GrantsMove(db.grants, db.nextId, Step(db, e).grants)
  {
    hide Inv;
    KnownIds(db);
    NoMove(db.grants, db.nextId);
    hide ExpiriesValid, GrantsMove, WithRevoked, WithDecrements, WithFailed, Without, OtherGrants, OtherRequests, GrantsOn;
    match e
    case ERevoke(grant) => RevocationMoves(db.grants, db.nextId, {grant});
    case ESweep(users) =>
      RevocationMoves(db.grants, db.nextId, ActiveOfAny(db.grants, users));
    case EArchive(dataset) => RevocationMoves(db.grants, db.nextId, ActiveOn(db.grants, dataset));
    case EDelete(dataset) => DeletionMoves(db.grants, db.nextId, ActiveOn(db.grants, dataset), dataset);
  }

  lemma WritingGrantStep(db: Db, e: Event)
    requires Inv(db) && Sound(e) && (e.EApprove? || e.EExtend?)
    ensures GrantsMove(db.grants, db.nextId, Step(db, e).grants)
  {
    hide Inv;
    KnownIds(db);
    NoMove(db.grants, db.nextId);
    hide GrantsMove, ComputeExpiry;
    match e
    case EApprove(request, scopeOverride, duration, custom, now) =>
      var r := ApproveRequest(db, request, scopeOverride, duration, custom, now);
      if r.Ok? { WriteMoves(db.grants, db.nextId, db.nextId, r.value.grants[db.nextId]); }
    case EExtend(grant, duration, custom) =>
      var r := ExtendGrant(db, grant, duration, custom);
      if r.Ok? { WriteMoves(db.grants, db.nextId, grant, r.value.grants[grant]); }
  }

  lemma GrantStep(db: Db, e: Event)
    requires Inv(db) && Sound(e)
    ensures GrantsMove(db.grants, db.nextId, Step(db, e).grants)
  {
    hide Inv;
    KnownIds(db);
    NoMove(db.grants, db.nextId);
    hide GrantsMove, ApproveRequest, ExtendGrant, SweepUsers, RevokeGrant, ArchiveDataset, DeleteDataset, Scope.ValidateScope;
    match e
    case ERevoke(_) => BulkGrantStep(db, e);
    case ESweep(_) => BulkGrantStep(db, e);
    case EArchive(_) => BulkGrantStep(db, e);
    case EDelete(_) => BulkGrantStep(db, e);
    case EApprove(_, _, _, _, _) => WritingGrantStep(db, e);
    case EExtend(_, _, _) => WritingGrantStep(db, e);
    case _ =>
  }

  lemma IdsGrow(db: Db, e: Event)
    requires Inv(db) && Sound(e)
    ensures db.nextId <= Step(db, e).nextId
  {
    hide Inv;
    KnownIds(db);
    hide ComputeExpiry, Scope.ValidateScope, WithRevoked, WithDecrements, WithFailed, Without, OtherRequests, OtherGrants;
  }

  lemma NoMove(grants: map<Id, Grant>, nextId: Id)
    ensures GrantsMove(grants, nextId, grants)
  {
  }

  /** Over every run: what a grant gives, and to whom, is fixed at approval, and a revoked grant stays revoked. */
  lemma {:induction false} GrantHistory(db: Db, events: seq<Event>, g: Id)
    requires Inv(db) && AllSound(events) && g in db.grants
    ensures var after := Run(db, events);
      db.nextId <= after.nextId && (g in after.grants ==> SameGrant(db.grants[g], after.grants[g]))
  {
    hide Inv, Step;
    assert g < db.nextId by { KnownIds(db); }
    if events != [] {
      var most := events[..|events| - 1];
      GrantHistory(db, most, g);
      GrantStep(Run(db, most), events[|events| - 1]);
      IdsGrow(Run(db, most), events[|events| - 1]);
    }
  }

  // ---------------------------------------------------------------- revocation safety

  function DownloadsOf(downloads: seq<Download>, g: Id): seq<Download> {
    if downloads == [] then []
    else DownloadsOf(downloads[..|downloads| - 1], g)
         + (if downloads[|downloads| - 1].grant == g then [downloads[|downloads| - 1]] else [])
  }

  lemma {:induction false} DownloadsOfWithout(downloads: seq<Download>, gone: set<Id>, g: Id)
    ensures DownloadsOf(Without(downloads, gone), g) == if g in gone then [] else DownloadsOf(downloads, g)
  {
    if downloads != [] {
      var most, last := downloads[..|downloads| - 1], downloads[|downloads| - 1];
      DownloadsOfWithout(most, gone, g);
      DownloadsAppend(Without(most, gone), last, g);
      assert Without(most, gone) + [] == Without(most, gone);
    }
  }

  lemma NoneForUnknownGrant(db: Db, g: Id)
    requires Inv(db) && g !in db.grants
    ensures DownloadsOf(db.downloads, g) == []
  {
    NoneAmong(db.downloads, g);
  }

  lemma NoneAmong(downloads: seq<Download>, g: Id)
    requires forall i :: 0 <= i < |downloads| ==> downloads[i].grant != g
    ensures DownloadsOf(downloads, g) == []
  {
  }

  lemma DownloadsAppend(downloads: seq<Download>, last: Download, g: Id)
    ensures DownloadsOf(downloads + [last], g) == DownloadsOf(downloads, g) + if last.grant == g then [last] else []
  {
    var all := downloads + [last];
    assert all[..|all| - 1] == downloads;
  }

  lemma DownloadsKept(db: Db, e: Event)
    requires Inv(db) && Sound(e) && !e.EDownload? && !e.EDelete?
    ensures Step(db, e).downloads == db.downloads
  {
    hide Inv;
    KnownIds(db);
    hide ComputeExpiry, Scope.ValidateScope, WithRevoked, WithDecrements, WithFailed;
  }

  /** Whatever the step, and whatever status a worker writes: only an ACTIVE grant gains a download log. */
  lemma DownloadStep(db: Db, e: Event, g: Id)
    requires Inv(db) && Sound(e) && (g in db.grants ==> db.grants[g].status != Active)
    ensures var was, now := DownloadsOf(db.downloads, g), DownloadsOf(Step(db, e).downloads, g);
      now == was || now == []
  {
    hide Inv;
    KnownIds(db);
    hide WithRevoked, WithDecrements, WithFailed, OtherRequests, OtherGrants, GrantsOn, ActiveOn, Without, DownloadsOf;
    if e.EDownload? {
      OneDownload(db, e.user, e.extraction, g);
      hide DownloadExtraction;
    } else if e.EDelete? {
      DownloadsOfWithout(db.downloads, GrantsOn(WithRevoked(db.grants, ActiveOn(db.grants, e.dataset)), e.dataset), g);
    } else {
      DownloadsKept(db, e);
      hide Step;
    }
  }

  lemma OneDownload(db: Db, user: Id, extraction: Id, g: Id)
    requires g in db.grants ==> db.grants[g].status != Active
    ensures DownloadsOf(Kept(db, DownloadExtraction(db, user, extraction)).downloads, g) == DownloadsOf(db.downloads, g)
  {
    hide DownloadsOf;
    var r := DownloadExtraction(db, user, extraction);
    if r.Ok? { DownloadsAppend(db.downloads, r.value.downloads[|db.downloads|], g); }
  }

  /**
   Revocation is the end of a grant's downloads: over every run that follows, workers finishing late
   included, its download logs are those it had when it was revoked, or they went when its dataset was deleted.
   */
  lemma {:induction false} NoDownloadAfterRevocation(db: Db, events: seq<Event>, g: Id)
    requires Inv(db) && AllSound(events) && g in db.grants && db.grants[g].status == Revoked
    ensures var was, now := DownloadsOf(db.downloads, g), DownloadsOf(Run(db, events).downloads, g);
      now == was || now == []
  {
    hide Inv, Step;
    if events != [] {
      var most := events[..|events| - 1];
      NoDownloadAfterRevocation(db, most, g);
      GrantHistory(db, most, g);
      var before := Run(db, most);
      if g !in before.grants { NoneForUnknownGrant(before, g); }
      DownloadStep(before, events[|events| - 1], g);
    }
  }

  // ---------------------------------------------------------------- extractions in flight

  /** No extraction is queued or processing for a grant that is not ACTIVE. */
  predicate NoneInFlight(grants: map<Id, Grant>, extractions: map<Id, Extraction>) {
    forall x :: x in extractions && extractions[x].InFlight() ==>
      extractions[x].grant in grants && grants[extractions[x].grant].status == Active
  }

  lemma RevocationFailsThem(grants: map<Id, Grant>, extractions: map<Id, Extraction>, gs: set<Id>)
    requires NoneInFlight(grants, extractions)
    ensures NoneInFlight(WithRevoked(grants, gs), WithFailed(extractions, gs))
  {
  }

  lemma CascadeRevivesNothing(db: Db, dataset: Id)
    requires NoneInFlight(db.grants, db.extractions)
    ensures NoneInFlight(Cascade(db, dataset).grants, Cascade(db, dataset).extractions)
  {
    hide Without;
  }

  lemma BulkRevivesNothing(db: Db, e: Event)
    requires Inv(db) && Sound(e) && NoneInFlight(db.grants, db.extractions)
    requires e.ERevoke? || e.ESweep? || e.EArchive? || e.EDelete?
    ensures NoneInFlight(Step(db, e).grants, Step(db, e).extractions)
  {
    hide Inv;
    KnownIds(db);
    hide ExpiriesValid, WithRevoked, WithDecrements, WithFailed, NoneInFlight, Cascade;
    match e
    case ERevoke(grant) => RevocationFailsThem(db.grants, db.extractions, {grant});
    case ESweep(users) =>
      RevocationFailsThem(db.grants, db.extractions, ActiveOfAny(db.grants, users));
    case EArchive(dataset) => RevocationFailsThem(db.grants, db.extractions, ActiveOn(db.grants, dataset));
    case EDelete(dataset) =>
      RevocationFailsThem(db.grants, db.extractions, ActiveOn(db.grants, dataset));
      CascadeRevivesNothing(Revocation(db, ActiveOn(db.grants, dataset)), dataset);
  }

  lemma CallsReviveNothing(db: Db, e: Event)
    requires Inv(db) && Sound(e) && NoneInFlight(db.grants, db.extractions)
    requires !e.EWorkerStart? && !e.ERevoke? && !e.ESweep? && !e.EArchive? && !e.EDelete?
    ensures NoneInFlight(Step(db, e).grants, Step(db, e).extractions)
  {
    hide Inv;
    KnownIds(db);
    hide SweepUsers, RevokeGrant, ArchiveDataset, DeleteDataset, ComputeExpiry, Scope.ValidateScope;
  }

  /** A worker picks up an extraction whose grant is no longer ACTIVE, one the revocation had already failed. */
  predicate Late(db: Db, e: Event) {
    && e.EWorkerStart? && e.extraction in db.extractions
    && !(db.extractions[e.extraction].grant in db.grants && db.grants[db.extractions[e.extraction].grant].status == Active)
  }

  /** Every step keeps revoked grants free of extractions in flight, except exactly such a late start. */
  lemma OnlyALateWorkerRevives(db: Db, e: Event)
    requires Inv(db) && Sound(e) && NoneInFlight(db.grants, db.extractions)
    ensures NoneInFlight(Step(db, e).grants, Step(db, e).extractions) <==> !Late(db, e)
  {
    hide Inv;
    KnownIds(db);
    if e.EWorkerStart? {
      LateWorker(db, e.extraction);
      hide Inv, NoneInFlight, WorkerWrites;
    } else if e.ERevoke? || e.ESweep? || e.EArchive? || e.EDelete? {
      BulkRevivesNothing(db, e);
      hide Inv, Step, NoneInFlight;
    } else {
      CallsReviveNothing(db, e);
      hide Inv, Step, NoneInFlight;
    }
  }

  lemma LateWorker(db: Db, extraction: Id)
    requires Inv(db) && NoneInFlight(db.grants, db.extractions)
    ensures var after := WorkerWrites(db, extraction, Processing);
      NoneInFlight(after.grants, after.extractions)
      <==> !(extraction in db.extractions && db.grants[db.extractions[extraction].grant].status != Active)
  {
    hide Inv;
    KnownIds(db);
    var after := WorkerWrites(db, extraction, Processing);
    if extraction in db.extractions { assert after.extractions[extraction].InFlight(); }
  }

  /**
   Over every run: at no point does a revoked grant have an extraction queued or processing, if and only if no
   worker ever starts one late.
   */
  lemma NoneInFlightOverRuns(db: Db, events: seq<Event>)
    requires Inv(db) && AllSound(events) && NoneInFlight(db.grants, db.extractions)
    ensures Throughout(db, events, (d: Db) => NoneInFlight(d.grants, d.extractions)) <==> Never(db, events, Late)
  {
    hide Inv, Step, NoneInFlight, Late, Throughout, Never;
    forall d: Db, e: Event | Inv(d) && Sound(e) && NoneInFlight(d.grants, d.extractions)
      ensures ExpiriesValid(d) && (NoneInFlight(Step(d, e).grants, Step(d, e).extractions) <==> !Late(d, e))
    {
      KnownValid(d);
      OnlyALateWorkerRevives(d, e);
    }
    KnownValidAll();
    HoldsExactlyIfNeverBroken(db, events, (d: Db) => NoneInFlight(d.grants, d.extractions), Late);
  }

  // ---------------------------------------------------------------- bulk revocation

  /** Grants of other datasets, and the extractions made under them, as they were. */
  predicate OthersUntouched(db: Db, after: Db, dataset: Id) {
    && (forall g :: g in db.grants && db.grants[g].dataset != dataset ==> g in after.grants && after.grants[g] == db.grants[g])
    && (forall x :: x in db.extractions && db.extractions[x].grant in db.grants && db.grants[db.extractions[x].grant].dataset != dataset ==>
          x in after.extractions && after.extractions[x] == db.extractions[x])
  }

  lemma OthersUntouchedByArchiving(db: Db, dataset: Id)
    requires dataset in db.datasets
    ensures OthersUntouched(db, ArchiveDataset(db, dataset).value, dataset)
  {
    hide WithDecrements;
  }

  lemma CountersAfterRevocation(users: map<Id, int>, grants: map<Id, Grant>, lost: set<Id>)
    requires CountersAgree(users, grants)
    requires forall g :: g in lost ==> g in grants && grants[g].status == Active
    ensures forall u :: u in users ==>
      WithDecrements(users, grants, lost)[u] == |ActiveOf(grants, u)| - |ActiveOf(grants, u) * lost|
  {
    RevocationCounts(users, grants, lost);
    forall u | u in users ensures OfUser(grants, lost, u) == ActiveOf(grants, u) * lost {}
  }

  /**
   Archiving revokes every ACTIVE grant of the dataset and no other grant, and each user's counter drops by
   the number of ACTIVE grants that user held on it.
   */
  lemma ArchivingRevokes(db: Db, dataset: Id)
    requires Inv(db) && dataset in db.datasets
    ensures var r := ArchiveDataset(db, dataset);
      && r.Ok? && r.value.datasets[dataset] == Archived
      && ActiveOn(r.value.grants, dataset) == {}
      && OthersUntouched(db, r.value, dataset)
      && forall u :: u in db.users ==>
           r.value.users[u] == |ActiveOf(db.grants, u)| - |ActiveOf(db.grants, u) * ActiveOn(db.grants, dataset)|
  {
    KnownCounts(db);
    NoneActiveAfterRevocation(db.grants, dataset);
    OthersUntouchedByArchiving(db, dataset);
    CountersAfterRevocation(db.users, db.grants, ActiveOn(db.grants, dataset));
    hide Inv, CountersAgree, RequestsAgree, WithRevoked, WithFailed, WithDecrements, ActiveOf, ActiveOn, OthersUntouched;
  }

  /** Permanent deletion leaves nothing of the dataset, and other datasets' grants and extractions as they were. */
  lemma DeletingErases(db: Db, dataset: Id)
    requires Inv(db) && dataset in db.datasets
    ensures var r := DeleteDataset(db, dataset);
      && r.Ok? && dataset !in r.value.datasets
      && (forall g :: g in r.value.grants ==> r.value.grants[g].dataset != dataset)
      && (forall q :: q in r.value.requests ==> r.value.requests[q].dataset != dataset)
      && (forall x :: x in r.value.extractions ==> r.value.extractions[x].grant in r.value.grants)
      && OthersUntouched(db, r.value, dataset)
  {
    hide CountersAgree, RequestsAgree, WithDecrements, Without;
  }

  /** The step is an approval that goes through for a request on the dataset. */
  predicate Approves(db: Db, e: Event, dataset: Id) {
    && Sound(e) && e.EApprove? && e.request in db.requests && db.requests[e.request].dataset == dataset
    && ApproveRequest(db, e.request, e.scopeOverride, e.duration, e.custom, e.now).Ok?
  }

  lemma BulkGrantsNothing(db: Db, e: Event, dataset: Id)
    requires Inv(db) && Sound(e) && (e.ERevoke? || e.ESweep? || e.EArchive? || e.EDelete?)
    ensures ActiveOn(Step(db, e).grants, dataset) <= ActiveOn(db.grants, dataset)
  {
    hide Inv;
    KnownIds(db);
    hide WithDecrements, WithFailed, Without, OtherRequests;
  }

  lemma OthersGrantNothing(db: Db, e: Event, dataset: Id)
    requires Inv(db) && Sound(e) && !e.EApprove? && !e.ERevoke? && !e.ESweep? && !e.EArchive? && !e.EDelete?
    ensures ActiveOn(Step(db, e).grants, dataset) == ActiveOn(db.grants, dataset)
  {
    hide Inv;
    KnownIds(db);
    hide ComputeExpiry, Scope.ValidateScope, SweepUsers, RevokeGrant, ArchiveDataset, DeleteDataset, ApproveRequest;
  }

  lemma ApprovalGrants(db: Db, e: Event, dataset: Id)
    requires Inv(db) && Sound(e) && e.EApprove?
    ensures ActiveOn(Step(db, e).grants, dataset) == ActiveOn(db.grants, dataset) + if Approves(db, e, dataset) then {db.nextId} else {}
  {
    hide Inv;
    KnownIds(db);
    hide ComputeExpiry;
  }

  /** Once a dataset has no ACTIVE grant, archived or not, exactly an approval of a request on it gives it one. */
  lemma OnlyApprovalGrants(db: Db, e: Event, dataset: Id)
    requires Inv(db) && Sound(e) && ActiveOn(db.grants, dataset) == {}
    ensures ActiveOn(Step(db, e).grants, dataset) == {} <==> !Approves(db, e, dataset)
  {
    hide Inv, Step, ActiveOn;
    KnownIds(db);
    if e.EApprove? {
      ApprovalGrants(db, e, dataset);
      if Approves(db, e, dataset) { assert db.nextId in ActiveOn(Step(db, e).grants, dataset); }
    } else if e.ERevoke? || e.ESweep? || e.EArchive? || e.EDelete? {
      BulkGrantsNothing(db, e, dataset);
    } else {
      OthersGrantNothing(db, e, dataset);
    }
  }

  /**
   Over every run that follows an archiving: the dataset stays without ACTIVE grants throughout, if and only if
   no approval of a request on it goes through.
   */
  lemma NoGrantAfterArchivingExactly(db: Db, dataset: Id, events: seq<Event>)
    requires Inv(db) && AllSound(events) && dataset in db.datasets
    ensures ExpiriesValid(db)
    ensures var archived := Step(db, EArchive(dataset));
      && Inv(archived) && archived.datasets[dataset] == Archived
      && (Throughout(archived, events, (d: Db) => ActiveOn(d.grants, dataset) == {})
          <==> Never(archived, events, (d: Db, e: Event) => Approves(d, e, dataset)))
  {
    hide Inv, ActiveOn, Approves, Throughout, Never;
    KnownValidAll();
    StepKeepsInv(db, EArchive(dataset));
    ArchivingRevokes(db, dataset);
    hide Step;
    var archived := Step(db, EArchive(dataset));
    forall d: Db, e: Event | Inv(d) && Sound(e) && ActiveOn(d.grants, dataset) == {}
      ensures ExpiriesValid(d) && (ActiveOn(Step(d, e).grants, dataset) == {} <==> !Approves(d, e, dataset))
    {
      OnlyApprovalGrants(d, e, dataset);
    }
    HoldsExactlyIfNeverBroken(archived, events, (d: Db) => ActiveOn(d.grants, dataset) == {}, (d: Db, e: Event) => Approves(d, e, dataset));
  }

  /** Archiving is not a lasting bar: a request still pending on the archived dataset is approved as before. */
  lemma ApprovalIgnoresArchiving(db: Db, dataset: Id, request: Id, scopeOverride: Option<Scope.Criteria>,
                                 duration: GrantDuration, custom: Option<Date>, now: Instant)
    requires Inv(db) && dataset in db.datasets && now.Valid() && (custom.Some? ==> Instant(custom.value, 0).Valid())
    requires request in db.requests && db.requests[request].dataset == dataset && db.requests[request].status == Pending
    requires ComputeExpiry(now, duration, custom).Ok?
    ensures var archived := ArchiveDataset(db, dataset).value;
      var r := ApproveRequest(archived, request, scopeOverride, duration, custom, now);
      r.Ok? && r.value.datasets[dataset] == Archived && ActiveOn(r.value.grants, dataset) == {archived.nextId}
  {
    hide ComputeExpiry, CountersAgree, RequestsAgree, WithDecrements, WithFailed;
    var archived := ArchiveDataset(db, dataset).value;
    NoneActiveAfterRevocation(db.grants, dataset);
    hide WithRevoked;
    var r := ApproveRequest(archived, request, scopeOverride, duration, custom, now);
    assert forall g :: g in ActiveOn(r.value.grants, dataset) && g != archived.nextId ==> g in ActiveOn(archived.grants, dataset);
  }
}
