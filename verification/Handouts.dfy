/** What the portal hands out: over every run, extractions stay within their grant and downloads go to its holder. */
module Handouts {
  import opened Outcomes
  import opened Calendar
  import opened Lifecycle
  import opened LifecycleRuns
  import Scope

  /** Every extraction was checked against the scope its grant still has. */
  predicate WithinScope(grants: map<Id, Grant>, extractions: map<Id, Extraction>) {
    forall x :: x in extractions ==>
      extractions[x].grant in grants && Scope.ValidateScope(extractions[x].scope, grants[extractions[x].grant].scope).Ok?
  }

  /** Every download log names an extraction of its grant, and the grant's own user. */
  predicate LogsAgree(grants: map<Id, Grant>, extractions: map<Id, Extraction>, downloads: seq<Download>) {
    forall i :: 0 <= i < |downloads| ==>
      var d := downloads[i];
      d.grant in grants && d.user == grants[d.grant].user && d.extraction in extractions && extractions[d.extraction].grant == d.grant
  }

  // ---------------------------------------------------------------- extractions

  /** Extractions keep their grant and scope for life; a new one has passed the scope check. */
  predicate ExtractionsMove(db: Db, after: map<Id, Extraction>) {
    forall x :: x in after ==>
      if x in db.extractions then after[x].grant == db.extractions[x].grant && after[x].scope == db.extractions[x].scope
      else after[x].grant in db.grants && Scope.ValidateScope(after[x].scope, db.grants[after[x].grant].scope).Ok?
  }

  lemma BulkExtractionStep(db: Db, e: Event)
    requires Inv(db) && Sound(e) && (e.ERevoke? || e.ESweep? || e.EArchive? || e.EDelete?)
    ensures ExtractionsMove(db, Step(db, e).extractions)
  {
    hide Inv;
    KnownIds(db);
    hide Scope.ValidateScope, WithRevoked, WithDecrements, OtherGrants, OtherRequests, Without, GrantsOn, ActiveOn, ActiveOfAny;
  }

  lemma ExtractionStep(db: Db, e: Event)
    requires Inv(db) && Sound(e)
    ensures ExtractionsMove(db, Step(db, e).extractions)
  {
    hide Inv;
    KnownIds(db);
    if e.ERevoke? || e.ESweep? || e.EArchive? || e.EDelete? {
      BulkExtractionStep(db, e);
      hide Step;
    } else {
      hide Scope.ValidateScope, ComputeExpiry;
    }
  }

  lemma StepKeepsWithinScope(db: Db, e: Event)
    requires Inv(db) && Sound(e) && WithinScope(db.grants, db.extractions)
    ensures WithinScope(Step(db, e).grants, Step(db, e).extractions)
  {
    hide Inv, Step, Scope.ValidateScope;
    KnownIds(db);
    StepKeepsInv(db, e);
    KnownIds(Step(db, e));
    ExtractionStep(db, e);
    GrantStep(db, e);
  }

  // ---------------------------------------------------------------- downloads

  lemma RowsStay(db: Db, e: Event)
    requires Inv(db) && Sound(e) && !e.EDelete?
    ensures db.grants.Keys <= Step(db, e).grants.Keys && db.extractions.Keys <= Step(db, e).extractions.Keys
  {
    hide Inv;
    KnownIds(db);
    hide ComputeExpiry, Scope.ValidateScope, WithDecrements;
  }

  lemma LogsStayRight(db: Db, e: Event)
    requires Inv(db) && Sound(e) && !e.EDelete? && LogsAgree(db.grants, db.extractions, db.downloads)
    ensures LogsAgree(Step(db, e).grants, Step(db, e).extractions, db.downloads)
  {
    hide Inv, Step, Scope.ValidateScope;
    RowsStay(db, e);
    ExtractionStep(db, e);
    GrantStep(db, e);
  }

  lemma CascadeKeepsLogs(db: Db, dataset: Id)
    requires LogsAgree(db.grants, db.extractions, db.downloads)
    ensures var after := Cascade(db, dataset); LogsAgree(after.grants, after.extractions, after.downloads)
  {
    WithoutKeepsOthers(db.downloads, GrantsOn(db.grants, dataset));
    hide Without, OtherRequests;
  }

  lemma RevocationKeepsLogs(db: Db, gs: set<Id>)
    requires LogsAgree(db.grants, db.extractions, db.downloads)
    ensures var after := Revocation(db, gs); LogsAgree(after.grants, after.extractions, after.downloads)
  {
    hide WithDecrements;
  }

  lemma StepKeepsLogs(db: Db, e: Event)
    requires Inv(db) && Sound(e) && LogsAgree(db.grants, db.extractions, db.downloads)
    ensures var after := Step(db, e); LogsAgree(after.grants, after.extractions, after.downloads)
  {
    hide Inv, LogsAgree;
    KnownIds(db);
    if e.EDelete? {
      RevocationKeepsLogs(db, ActiveOn(db.grants, e.dataset));
      CascadeKeepsLogs(Revocation(db, ActiveOn(db.grants, e.dataset)), e.dataset);
      hide Revocation, Cascade, ActiveOn;
    } else {
      LogsStayRight(db, e);
      if e.EDownload? {
        DownloadKeepsLogs(db, e.user, e.extraction);
      } else {
        DownloadsKept(db, e);
        hide Step;
      }
    }
  }

  lemma DownloadKeepsLogs(db: Db, user: Id, extraction: Id)
    requires LogsAgree(db.grants, db.extractions, db.downloads)
    ensures var after := Kept(db, DownloadExtraction(db, user, extraction));
      LogsAgree(after.grants, after.extractions, after.downloads)
  {
  }

  /**
   Over every run: no extraction reaches beyond what its grant's scope allows, and no one but the grant's
   holder has ever downloaded under it.
   */
  lemma {:induction false} HandoutsOverRuns(db: Db, events: seq<Event>)
    requires Inv(db) && AllSound(events)
    requires WithinScope(db.grants, db.extractions) && LogsAgree(db.grants, db.extractions, db.downloads)
    ensures var after := Run(db, events);
      WithinScope(after.grants, after.extractions) && LogsAgree(after.grants, after.extractions, after.downloads)
  {
    hide Inv, Step, WithinScope, LogsAgree;
    if events != [] {
      var most := events[..|events| - 1];
      HandoutsOverRuns(db, most);
      StepKeepsWithinScope(Run(db, most), events[|events| - 1]);
      StepKeepsLogs(Run(db, most), events[|events| - 1]);
    }
  }

  /**
   What an existing extraction selects, the grant selects: every record, exactly if it sets the fields the
   grant sets, its dates are in step with the grant's, and its box holds at the corners.
   */
  lemma ExtractionsSelectGrantedRecords(db: Db, x: Id, granted: Scope.Criteria)
    requires WithinScope(db.grants, db.extractions) && x in db.extractions
    requires db.grants[db.extractions[x].grant].scope == Some(granted)
    requires var asked := db.extractions[x].scope;
      && Scope.FilterOf(asked).Ok? && Scope.FilterOf(granted).Ok? && Scope.Satisfiable(Scope.FilterOf(asked).value)
    ensures var asked := db.extractions[x].scope;
      Scope.Contained(Scope.FilterOf(asked).value, Scope.FilterOf(granted).value)
      <==> Scope.SetsEveryField(asked, granted) && Scope.DatesInStep(asked, granted) && Scope.CornersHold(asked.bounds, granted.bounds)
  {
    hide Scope.Selects, Scope.ValidateScope, Scope.SetsEveryField, Scope.DatesInStep, Scope.CornersHold, Scope.FilterOf;
    Scope.AcceptedMeansContainedExactly(db.extractions[x].scope, granted);
  }

  // ---------------------------------------------------------------- how long a grant runs

  /** Only approving and extending fix an expiry: from now, and from the expiry the grant already has. */
  lemma ExtendingStartsFromTheExpiry(db: Db, grant: Id, durations: seq<GrantDuration>)
    requires Inv(db) && grant in db.grants && db.grants[grant].status == Active
    requires db.grants[grant].expiresAt.Valid()
    requires ExtendAll(db.grants[grant].expiresAt, durations).Ok?
    ensures AllSound(Extensions(grant, durations))
    ensures var after := Run(db, Extensions(grant, durations));
      && after.grants.Keys == db.grants.Keys && after.grants[grant].status == Active
      && after.grants[grant].expiresAt == ExtendAll(db.grants[grant].expiresAt, durations).value
  {
    hide Inv, ComputeExpiry;
    if durations != [] {
      var n := |durations| - 1;
      var events := Extensions(grant, durations);
      assert events[..n] == Extensions(grant, durations[..n]);
      ExtendingStartsFromTheExpiry(db, grant, durations[..n]);
      var before := Run(db, events[..n]);
      KnownIds(before);
      assert events[n] == EExtend(grant, durations[n], None);
    }
  }

  function Extensions(grant: Id, durations: seq<GrantDuration>): (events: seq<Event>)
    ensures |events| == |durations|
  {
    seq(|durations|, i requires 0 <= i < |durations| => EExtend(grant, durations[i], None))
  }
}
