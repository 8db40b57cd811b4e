/**
 The portal's calls as they run: rows written one after another and loops over the rows a query returned.
 Each method is proved to commit exactly the state its specification in `Lifecycle` gives, and nothing on error.
 */
module PortalService {
  import opened Outcomes
  import opened Calendar
  import opened Lifecycle
  import Scope

  function Failure(spec: Result<Db, Error>): Option<Error> {
    if spec.Ok? then None else Some(spec.error)
  }

  // ---------------------------------------------------------------- revoking one by one

  lemma UsersTwice(users: map<Id, int>, grants: map<Id, Grant>, first: set<Id>, next: set<Id>)
    requires first !! next && next <= grants.Keys
    ensures WithDecrements(WithDecrements(users, grants, first), WithRevoked(grants, first), next) == WithDecrements(users, grants, first + next)
  {
    forall u ensures |OfUser(grants, first + next, u)| == |OfUser(grants, first, u)| + |OfUser(WithRevoked(grants, first), next, u)| {
      LossesAdd(grants, first, next, u);
    }
    hide WithRevoked, OfUser;
  }

  lemma LossesAdd(grants: map<Id, Grant>, first: set<Id>, next: set<Id>, u: Id)
    requires first !! next && next <= grants.Keys
    ensures |OfUser(grants, first + next, u)| == |OfUser(grants, first, u)| + |OfUser(WithRevoked(grants, first), next, u)|
  {
    assert OfUser(WithRevoked(grants, first), next, u) == OfUser(grants, next, u);
    assert OfUser(grants, first + next, u) == OfUser(grants, first, u) + OfUser(grants, next, u);
    assert OfUser(grants, first, u) !! OfUser(grants, next, u);
  }

  lemma GrantsTwice(grants: map<Id, Grant>, first: set<Id>, next: set<Id>)
    ensures WithRevoked(WithRevoked(grants, first), next) == WithRevoked(grants, first + next)
  {
  }

  lemma ExtractionsTwice(extractions: map<Id, Extraction>, first: set<Id>, next: set<Id>)
    ensures WithFailed(WithFailed(extractions, first), next) == WithFailed(extractions, first + next)
  {
  }

  /** Revoking some grants and then others is revoking them together: the order of the calls does not matter. */
  lemma RevokingTwice(db: Db, first: set<Id>, next: set<Id>)
    requires first !! next && next <= db.grants.Keys
    ensures Revocation(Revocation(db, first), next) == Revocation(db, first + next)
  {
    UsersTwice(db.users, db.grants, first, next);
    GrantsTwice(db.grants, first, next);
    ExtractionsTwice(db.extractions, first, next);
    hide WithRevoked, WithFailed, WithDecrements;
  }

  lemma RevokingOneMore(db: Db, gs: set<Id>, g: Id)
    requires g !in gs && g in db.grants && db.grants[g].status == Active
    ensures RevokeGrant(Revocation(db, gs), g) == Ok(Revocation(db, gs + {g}))
  {
    RevokingTwice(db, gs, {g});
    assert Revocation(db, gs).grants[g] == db.grants[g];
    hide Revocation;
  }

  lemma RevokingNone(db: Db)
    ensures Revocation(db, {}) == db
  {
    forall u | u in db.users ensures OfUser(db.grants, {}, u) == {} {}
    assert WithDecrements(db.users, db.grants, {}) == db.users;
    assert WithRevoked(db.grants, {}) == db.grants;
    assert WithFailed(db.extractions, {}) == db.extractions;
  }

  lemma OneDecrement(users: map<Id, int>, grants: map<Id, Grant>, g: Id)
    requires g in grants
    ensures WithDecrements(users, grants, {g})
         == if grants[g].user in users then users[grants[g].user := Max(0, users[grants[g].user] - 1)] else users
  {
    forall u ensures OfUser(grants, {g}, u) == if grants[g].user == u then {g} else {} {}
  }

  class Portal {
    var users: map<Id, int>
    var datasets: map<Id, DatasetStatus>
    var requests: map<Id, Request>
    var grants: map<Id, Grant>
    var extractions: map<Id, Extraction>
    var downloads: seq<Download>
    var nextId: Id

    ghost function View(): Db
      reads this
    {
      Db(users, datasets, requests, grants, extractions, downloads, nextId)
    }

    ghost predicate Valid()
      reads this
    {
      Inv(View())
    }

    constructor (accounts: set<Id>, catalogue: map<Id, DatasetStatus>)
      ensures Valid()
      ensures View() == Db(map u | u in accounts :: 0, catalogue, map[], map[], map[], [], 0)
    {
      users, datasets := map u | u in accounts :: 0, catalogue;
      requests, grants, extractions := map[], map[], map[];
      downloads, nextId := [], 0;
      new;
      EmptyPortalSatisfiesInv(accounts, catalogue, 0);
    }

    method Create(user: Id, dataset: Id, criteria: Option<Scope.Criteria>) returns (failure: Option<Error>)
      requires Valid()
      modifies this
      ensures Valid()
      ensures var spec := CreateRequest(old(View()), user, dataset, criteria);
        View() == Kept(old(View()), spec) && failure == Failure(spec)
    {
      hide Inv;
      StepKeepsInv(View(), ECreateRequest(user, dataset, criteria));
      if dataset !in datasets || datasets[dataset] != Published || user !in users { return Some(NotFound); }
      requests := requests[nextId := Request(user, dataset, criteria, Pending)];
      nextId := nextId + 1;
      failure := None;
    }

    method Approve(request: Id, scopeOverride: Option<Scope.Criteria>, duration: GrantDuration, custom: Option<Date>, now: Instant)
      returns (failure: Option<Error>)
      requires Valid() && now.Valid() && (custom.Some? ==> Instant(custom.value, 0).Valid())
      modifies this
      ensures Valid()
      ensures var spec := ApproveRequest(old(View()), request, scopeOverride, duration, custom, now);
        View() == Kept(old(View()), spec) && failure == Failure(spec)
    {
      hide Inv, ComputeExpiry;
      StepKeepsInv(View(), EApprove(request, scopeOverride, duration, custom, now));
      if request !in requests { return Some(NotFound); }
      var r := requests[request];
      if r.status != Pending { return Some(AlreadyReviewed(r.status)); }
      var expiry := ComputeExpiry(now, duration, custom);
      if expiry.Err? { return Some(BadExpiry(expiry.error)); }
      var scope := r.criteria;
      if scopeOverride.Some? { scope := scopeOverride; }
      grants := grants[nextId := Grant(r.user, r.dataset, request, expiry.value, Active, scope)];
      nextId := nextId + 1;
      requests := requests[request := r.(status := Approved)];
      if r.user in users { users := users[r.user := users[r.user] + 1]; }
      failure := None;
    }

    method Reject(request: Id) returns (failure: Option<Error>)
      requires Valid()
      modifies this
      ensures Valid()
      ensures var spec := RejectRequest(old(View()), request);
        View() == Kept(old(View()), spec) && failure == Failure(spec)
    {
      hide Inv;
      StepKeepsInv(View(), EReject(request));
      if request !in requests { return Some(NotFound); }
      var r := requests[request];
      if r.status != Pending { return Some(AlreadyReviewed(r.status)); }
      requests := requests[request := r.(status := Rejected)];
      failure := None;
    }

    method Extend(grant: Id, duration: GrantDuration, custom: Option<Date>) returns (failure: Option<Error>)
      requires Valid() && (custom.Some? ==> Instant(custom.value, 0).Valid())
      modifies this
      ensures Valid()
      ensures ExpiriesValid(old(View()))
      ensures var spec := ExtendGrant(old(View()), grant, duration, custom);
        View() == Kept(old(View()), spec) && failure == Failure(spec)
    {
      hide Inv, ComputeExpiry;
      KnownValid(View());
      StepKeepsInv(View(), EExtend(grant, duration, custom));
      if grant !in grants { return Some(NotFound); }
      if grants[grant].status != Active { return Some(GrantNotActive); }
      var expiry := ComputeExpiry(grants[grant].expiresAt, duration, custom);
      if expiry.Err? { return Some(BadExpiry(expiry.error)); }
      grants := grants[grant := grants[grant].(expiresAt := expiry.value)];
      failure := None;
    }

    /** Fails every extraction in flight for a grant. */
    method FailInFlight(grant: Id)
      modifies this`extractions
      ensures extractions == WithFailed(old(extractions), {grant})
    {
      var inFlight := set x | x in extractions && extractions[x].grant == grant && extractions[x].InFlight();
      while inFlight != {}
        invariant extractions.Keys == old(extractions).Keys
        invariant inFlight <= set x | x in old(extractions) && old(extractions)[x].grant == grant && old(extractions)[x].InFlight()
        invariant forall x :: x in extractions ==>
          extractions[x] == if x in inFlight then old(extractions)[x] else WithFailed(old(extractions), {grant})[x]
        decreases |inFlight|
      {
        var x :| x in inFlight;
        extractions := extractions[x := extractions[x].(status := Failed)];
        inFlight := inFlight - {x};
      }
    }

    method Revoke(grant: Id) returns (failure: Option<Error>)
      modifies this`users, this`grants, this`extractions
      ensures var spec := RevokeGrant(old(View()), grant);
        View() == Kept(old(View()), spec) && failure == Failure(spec)
    {
      if grant !in grants { return Some(NotFound); }
      if grants[grant].status != Active { return Some(GrantNotActive); }
      OneDecrement(users, grants, grant);
      var grantee := grants[grant].user;
      grants := grants[grant := grants[grant].(status := Revoked)];
      assert grants == WithRevoked(old(grants), {grant});
      if grantee in users { users := users[grantee := Max(0, users[grantee] - 1)]; }
      FailInFlight(grant);
      hide WithFailed, WithDecrements, WithRevoked;
      failure := None;
    }

    /** The revocation loop that archiving, deleting and the deletion sweep share. */
    method RevokeEach(active: set<Id>)
      requires forall g :: g in active ==> g in grants && grants[g].status == Active
      modifies this`users, this`grants, this`extractions
      ensures View() == Revocation(old(View()), active)
    {
      ghost var done: set<Id> := {};
      RevokingNone(View());
      var left := active;
      while left != {}
        invariant done !! left && done + left == active
        invariant View() == Revocation(old(View()), done)
        decreases |left|
      {
        hide WithRevoked, WithFailed, WithDecrements;
        var g :| g in left;
        RevokingOneMore(old(View()), done, g);
        var failure := Revoke(g);
        left := left - {g};
        done := done + {g};
      }
      assert done == active;
    }

    method Archive(dataset: Id) returns (failure: Option<Error>)
      requires Valid()
      modifies this
      ensures Valid()
      ensures var spec := ArchiveDataset(old(View()), dataset);
        View() == Kept(old(View()), spec) && failure == Failure(spec)
    {
      hide Inv, Revocation;
      StepKeepsInv(View(), EArchive(dataset));
      if dataset !in datasets { return Some(NotFound); }
      datasets := datasets[dataset := Archived];
      var active := ActiveOn(grants, dataset);
      RevokeEach(active);
      failure := None;
    }

    method PermanentlyDelete(dataset: Id) returns (failure: Option<Error>)
      requires Valid()
      modifies this
      ensures Valid()
      ensures var spec := DeleteDataset(old(View()), dataset);
        View() == Kept(old(View()), spec) && failure == Failure(spec)
    {
      hide Inv, Revocation;
      StepKeepsInv(View(), EDelete(dataset));
      if dataset !in datasets { return Some(NotFound); }
      var active := ActiveOn(grants, dataset);
      RevokeEach(active);
      DropDataset(dataset);
      failure := None;
    }

    /** `db.delete(dataset)`, with the rows its foreign keys take along. */
    method DropDataset(dataset: Id)
      modifies this
      ensures View() == Cascade(old(View()), dataset)
    {
      var gone := GrantsOn(grants, dataset);
      datasets := datasets - {dataset};
      requests := OtherRequests(requests, dataset);
      grants := OtherGrants(grants, dataset);
      extractions := map x | x in extractions && extractions[x].grant !in gone :: extractions[x];
      downloads := Without(downloads, gone);
    }

    /** The daily sweep: for each user past the grace period, the grants still ACTIVE are revoked. */
    method SweepDeletions(due: set<Id>)
      requires Valid()
      modifies this
      ensures Valid() && View() == SweepUsers(old(View()), due)
    {
      hide Inv, Revocation;
      StepKeepsInv(View(), ESweep(due));
      RevokingNone(View());
      ghost var done: set<Id> := {};
      var left := due;
      assert ActiveOfAny(grants, {}) == {};
      while left != {}
        invariant done !! left && done + left == due
        invariant View() == Revocation(old(View()), ActiveOfAny(old(grants), done))
        decreases |left|
      {
        var user :| user in left;
        var active := ActiveOf(grants, user);
        SweepStep(old(View()), done, user);
        RevokeEach(active);
        left := left - {user};
        done := done + {user};
      }
      assert done == due;
    }

    method Extract(user: Id, grant: Id, scope: Scope.Criteria, now: Instant, totalSize: nat, threshold: nat, finishes: bool)
      returns (failure: Option<Error>)
      requires Valid()
      modifies this
      ensures Valid()
      ensures var spec := CreateExtraction(old(View()), user, grant, scope, now, if 0 < totalSize <= threshold then Some(finishes) else None);
        View() == Kept(old(View()), spec) && failure == Failure(spec)
    {
      hide Inv, Scope.ValidateScope;
      ghost var synchronous := if 0 < totalSize <= threshold then Some(finishes) else None;
      StepKeepsInv(View(), EExtract(user, grant, scope, now, synchronous));
      if grant !in grants || grants[grant].user != user { return Some(NotFound); }
      if grants[grant].status != Active { return Some(GrantNotActive); }
      if !now.Before(grants[grant].expiresAt) { return Some(GrantExpired); }
      var check := Scope.ValidateScope(scope, grants[grant].scope);
      if check.Err? { return Some(OutOfScope(check.error)); }
      var row := nextId;
      extractions := extractions[row := Extraction(grant, scope, Queued)];
      nextId := nextId + 1;
      if 0 < totalSize <= threshold {
        WorkerWrite(row, Processing);
        WorkerWrite(row, if finishes then Complete else Failed);
      }
      assert View() == Kept(old(View()), CreateExtraction(old(View()), user, grant, scope, now, synchronous));
      failure := None;
    }

    method WorkerWrite(extraction: Id, status: ExtractionStatus)
      modifies this`extractions
      ensures View() == WorkerWrites(old(View()), extraction, status)
    {
      if extraction in extractions {
        extractions := extractions[extraction := extractions[extraction].(status := status)];
      }
    }

    method Download(user: Id, extraction: Id) returns (failure: Option<Error>)
      requires Valid()
      modifies this
      ensures Valid()
      ensures var spec := DownloadExtraction(old(View()), user, extraction);
        View() == Kept(old(View()), spec) && failure == Failure(spec)
    {
      hide Inv;
      StepKeepsInv(View(), EDownload(user, extraction));
      if extraction !in extractions { return Some(NotFound); }
      var x := extractions[extraction];
      if x.grant !in grants || grants[x.grant].user != user { return Some(NotFound); }
      if x.status != Complete { return Some(NotReady); }
      if grants[x.grant].status != Active { return Some(GrantNotActive); }
      downloads := downloads + [Lifecycle.Download(x.grant, user, extraction)];
      failure := None;
    }
  }

  lemma SweepStep(db: Db, done: set<Id>, user: Id)
    requires user !in done
    ensures var seen := Revocation(db, ActiveOfAny(db.grants, done));
      && (forall g :: g in ActiveOf(seen.grants, user) ==> g in seen.grants && seen.grants[g].status == Active)
      && Revocation(seen, ActiveOf(seen.grants, user)) == Revocation(db, ActiveOfAny(db.grants, done + {user}))
  {
    var first := ActiveOfAny(db.grants, done);
    var next := ActiveOf(db.grants, user);
    assert ActiveOf(WithRevoked(db.grants, first), user) == next;
    assert ActiveOfAny(db.grants, done + {user}) == first + next;
    RevokingTwice(db, first, next);
  }
}
