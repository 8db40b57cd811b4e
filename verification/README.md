# Proofs about BODP, the ocean data portal

BODP publishes ocean datasets. Researchers request access to one, admins grant it for a period and a scope,
and grant holders extract and download what the scope allows. Around that core sit multipart uploads with an
ingestion worker, roles, quality scans, login protection and a cached content layer.

This project models the parts of the service layer that hold state or arithmetic worth proving, and proves
what they keep over whole runs. A call is one atomic step, except where the code itself is several
transactions or reads and writes at different times: there the steps are modelled one by one (coverage counts
racing ingestion, role changes racing each other, a session sweep racing logins, the ingestion worker racing
cancellation, a cached read racing a write).

Where the source updates objects in place, a class does too (`UploadRecord`, `Portal`, `Catalogue`,
`RoleAdmin`, `Desk`, `LoginDesk`, `AuthService`, `Cms`, `Archive`), and its methods are proved equal to a
function of the old state; lemmas then speak about that function. Ids are drawn from counters and stand for
UUIDs. What clocks, storage, the cache and other transactions do is a parameter or an event.

| module | what it covers |
|---|---|
| `Outcomes`, `TextOrder` | results and options; code-point order on strings |
| `Calendar` | grant expiry |
| `DateText`, `Scope` | dates as text; the scope check against the record filter |
| `UploadSlices`, `Upload` | multipart uploads |
| `Lifecycle`, `Effects`, `LifecycleRuns`, `Handouts`, `Scenarios`, `PortalService`, `Purge` | requests, grants, extractions, downloads, archiving and deletion |
| `Coverage`, `Ingestions` | coverage snapshots and their staleness flag; ingestions that overlap |
| `Roles`, `RoleScenarios`, `RoleService` | coarse role and memberships |
| `Outliers`, `QualityScan`, `QualityDesk` | the quality scan |
| `RowMask`, `GridSampling` | extraction of `.mat` files; map points of a grid |
| `Lockout`, `Sessions` | failed logins; session revocation |
| `CmsCache` | page content and its cache |

## Where the code does less than it promises

Each of these is a theorem below, with the exact condition under which the code keeps its promise, and with a
concrete input or run on which it does not.

- Expiry dates are monotone in the start, but instants are not: 29 January in the evening and 31 January in the
  morning both expire on 28 February, in the opposite order (`Calendar.ExpiryMonotone`,
  `Calendar.ExpiryNotMonotoneToTheInstant`).
- The scope check compares dates as text. What an accepted request selects is granted exactly if its dates are
  written in step with the grant's; `20250101` passes a grant from `2025-06-01`
  (`Scope.AcceptedMeansContainedExactly`, `DateText.InStepExactly`, `Scope.HyphenlessDateReachesOutside`).
- It compares box corners one by one. A box with its corners swapped can pass and reach outside the granted one,
  and a granted box with swapped corners admits only boxes that contain it (`Scope.AcceptedBox`,
  `Scope.InsideOutGrant`, `Scope.SwappedCornersReachOutside`).
- Completion asks storage for one page of parts, so an upload with more parts than a page holds never completes
  (`Upload.CompletionSucceedsExactly`, `Upload.OverlongUploadsNeverComplete`, `Upload.OnePartTooMany`).
- A terminal upload status is left in one case: the worker finishes an upload that was cancelled while it ran
  (`Upload.TerminalStatesAreLeftOnlyByTheWorker`, `Upload.CancelledBecomesComplete`).
- A worker that starts late puts an extraction failed by a revocation back in progress; it still can never be
  downloaded (`LifecycleRuns.NoneInFlightOverRuns`, `LifecycleRuns.NoDownloadAfterRevocation`,
  `Scenarios.RevokedAndProcessing`).
- Archiving a dataset keeps it free of ACTIVE grants exactly until a pending request on it is approved
  (`LifecycleRuns.NoGrantAfterArchivingExactly`, `Scenarios.ArchivedAndGranted`).
- `anonymize_user` takes no row lock: an assignment committed between its read and its commit leaves a role
  behind (`Roles.AnonymizingKeepsSyncExactly`, `Roles.OnlyAnAssignmentOutdatesTheRead`,
  `RoleScenarios.AnonymizedAndHolding`).
- A user with three or more admin-panel roles cannot lose any of them (`Roles.UnassigningFailsExactly`,
  `RoleScenarios.ThreeRolesStay`).
- Deleting a role demotes nobody (`Roles.DeletingKeepsSyncExactly`, `RoleScenarios.AdminHoldingNothing`).
- The version that marks a snapshot stale is read and written by ingestions that may overlap; the flag is exact
  exactly if none commits on an outdated read (`Ingestions.FlagIsExactIfNoReadIsOutdated`,
  `Ingestions.SecondFileGoesUnnoticed`).
- `get_spatial_points` promises at most `max_points` points. The flattened loop keeps that; the two-axis loop
  keeps it when the stride divides both axes, and a grid of one row exceeds it exactly when it is longer than
  twice the cap (`GridSampling.FlatCap`, `GridSampling.AxisCapWhenDividing`, `GridSampling.AxisCapInGeneral`,
  `GridSampling.SingleRowCap`).
- Points without a value are left out only for double-precision arrays (`GridSampling.NaNShownExactly`,
  `GridSampling.FlatNaNShownExactly`, `GridSampling.MissingValueShown`).
- A login that falls between the read and the write of "revoke all sessions" survives it
  (`Sessions.SurvivorsAreTheNewlyIssued`, `Sessions.LoginSurvivesReset`).

## Model

| member | source | states |
|---|---|---|
| `Calendar.OrdinalIsChronological` | `backend/app/services/requests_service.py:103-126` | day numbers order dates as the calendar does, with the month lengths of section 5.7 and the leap years of Appendix C of RFC 3339 |
| `Calendar.GregorianDays` | `backend/app/services/requests_service.py:103-126` | the days before a year, in closed form: 365 a year and a leap day every 4 years, but for centuries not divisible by 400 |
| `Calendar.ShiftIsAddMonths` | `backend/app/services/requests_service.py:113-123` | adding years and months, with the day clamped to the month's end, is moving that many months on and then clamping |
| `Calendar.AddMonthsMonotone` | `backend/app/services/requests_service.py:113-123` | a later date never lands earlier after the same number of months |
| `Calendar.SplitMonths` | `backend/app/services/requests_service.py:536-551` | moving `a` months and then `b` never lands later than moving `a + b`, and lands on the same day exactly when the month half-way is long enough for it |
| `Calendar.ExpiryDate` | `backend/app/services/requests_service.py:113-126` | the expiry date is 5 or 10 days on, or the same day 1, 2, 6 or 12 months on clamped to the month's end, or midnight of the custom date |
| `Calendar.ExpiryIsLaterBy` | `backend/app/services/requests_service.py:103-126` | every duration but `custom` gives a real date at the same time of day, later by 5, 10, 28 to 31, 59 to 62, 181 to 184 or 365 to 366 days; it fails exactly past year 9999 |
| `Calendar.ExpiryMonotone` | `backend/app/services/requests_service.py:103-126` | a later start never gets an earlier expiry date; it gets an earlier instant exactly when both starts clamp onto one day and the later one has the earlier time of day |
| `Calendar.ExpiryNotMonotoneToTheInstant` | `backend/app/services/requests_service.py:113-126` | two concrete starts whose expiries come in the opposite order |
| `Calendar.ExtensionsPostpone` | `backend/app/services/requests_service.py:536-551` | any sequence of non-custom extensions moves the expiry strictly later |
| `Calendar.MonthByMonthNeverPasses` | `backend/app/services/requests_service.py:536-551` | `k` one-month extensions never pass one extension by `k` months |
| `Calendar.CustomExtensionCanShorten` | `backend/app/services/requests_service.py:103-126` | a custom date replaces the expiry, and postpones it exactly when it is a later day |
| `DateText.CalendarTexts` | `backend/app/services/requests_service.py:226-227` | writing a calendar date with or without hyphens and reading it gives its day |
| `DateText.WeekTexts` | `backend/app/services/requests_service.py:226-227` | so does writing a day of a week, and a week alone is its Monday |
| `DateText.FirstWeekHoldsJanuaryFourth` | `backend/app/services/requests_service.py:226-227` | weeks start on Monday and a year's first week holds 4 January |
| `DateText.FiftyThreeWeeks` | `backend/app/services/requests_service.py:226-227` | a year has 53 weeks exactly if the next year's first week starts 53 weeks after its own |
| `DateText.TextOrderOfDates` | `backend/app/services/requests_service.py:62-73` | for every two texts `date.fromisoformat` reads, text order looks at the written year, then the form, then the day, then whether a weekday was left out |
| `DateText.InStepExactly` | `backend/app/services/requests_service.py:62-73` | so text order and the calendar agree on "earlier" exactly under a condition on year, form and day |
| `DateText.CalendarDatesInStep` | `backend/app/services/requests_service.py:62-73` | which for calendar dates fails only where two forms mix within one year |
| `DateText.TextOrderIsChronological` | `backend/app/services/requests_service.py:62-73` | comparing two full-dates (section 5.6 of RFC 3339) as text is comparing the days |
| `DateText.HyphenlessDatesCompareYears` | `backend/app/services/requests_service.py:62-73` | against a full-date, a date without hyphens is compared by its year alone |
| `DateText.HyphenlessNewYear` | `backend/app/services/requests_service.py:62-73` | `20250101` is earlier than `2025-06-01` and does not sort before it |
| `Scope.CriteriaSelect` | `backend/app/services/requests_service.py:208-239` | what stored criteria select: each field that is set constrains the record's column of the same name and no other, and a missing value is not selected |
| `Scope.UnreadableCriteria` | `backend/app/services/requests_service.py:226-227` | criteria fail to become a filter exactly for a date that cannot be read |
| `Scope.ContainmentIsColumnwise` | `backend/app/services/catalog_service.py:386-432` | one record filter lies inside another exactly if it does column by column, given that it selects anything |
| `Scope.BoxContainment` | `backend/app/services/catalog_service.py:426-430` | a requested box lies in the granted one, corners of both in any order, exactly if each of its sides does |
| `Scope.AcceptedBox` | `backend/app/services/requests_service.py:88-100` | when the four comparisons accept a box, it lies in the granted one exactly if its corners hold; with both in order they are the containment test |
| `Scope.InsideOutGrant` | `backend/app/services/requests_service.py:88-100` | against a granted box with both corners swapped, every accepted box contains it, and only that very box lies in it |
| `Scope.ContainmentExactly` | `backend/app/services/requests_service.py:27-100` | for every readable pair with a satisfiable request: its records are all granted ones exactly if it sets every field the grant sets, passes the other checks, and its days and its box lie within |
| `Scope.AcceptedMeansContainedExactly` | `backend/app/services/requests_service.py:27-100` | an accepted request selects only granted records exactly if it sets every field the grant sets, its dates are in step and its corners hold |
| `Scope.ScopeCheckIsContainment` | `backend/app/services/requests_service.py:27-100` | with dates in step and a granted box in order, containment is acceptance, category aside, by a request that sets every field the grant sets and whose corners hold |
| `Scope.AcceptedMeansContained` | `backend/app/services/requests_service.py:27-100` | with full-dates and boxes in order: acceptance is set inclusion for a request that sets every field the grant sets, and an accepted request is included only if it sets them |
| `Scope.HyphenlessDateReachesOutside` | `backend/app/services/requests_service.py:62-73` | a request from `20250101` is accepted under a grant from `2025-06-01` and selects more |
| `Scope.SwappedCornersReachOutside` | `backend/app/services/requests_service.py:88-100` | a box from 20 degrees down to 5 is accepted under a grant from 0 to 10 and selects more |
| `Scope.FirstViolation` | `backend/app/services/requests_service.py:27-100` | the error names the first field in the order of the source that fails |
| `Scope.RefusedForItsFirstViolation` | `backend/app/services/requests_service.py:27-100` | a request is refused exactly if it violates some field of the grant, and for the first one it violates in the order of the service |
| `UploadSlices.SlicesTile` | `frontend/src/context/UploadTrackerContext.tsx:236-246` | the browser's slices, end to end, are the file; all but the last are full and none is empty |
| `UploadSlices.SortedSorts` | `backend/app/services/dataset_multipart_upload_service.py:162-171` | sorting the listed parts by number keeps exactly those parts, in increasing order |
| `UploadSlices.PartNumbersAreAllOfThem` | `backend/app/services/dataset_multipart_upload_service.py:158-171` | `n` distinct numbers from 1 to `n` in order are 1, 2, ..., `n`: the pigeonhole behind the count check |
| `UploadSlices.SortedSlicesMakeTheFile` | `backend/app/services/dataset_multipart_upload_service.py:158-179` | as many distinct slices as the file has parts, sorted and joined, are the file |
| `Upload.InitiateEstablishesInv` | `backend/app/services/dataset_multipart_upload_service.py:43-95` | an upload is accepted exactly for an existing dataset, a supported type and a size from 1 to the limit, each refusal with its own error, and starts empty, open and sound |
| `Upload.RunKeepsInv` | `backend/app/services/dataset_multipart_upload_service.py:77-278` | in every reachable state uploaded bytes are within the size, INITIATED has an open session and no file row, QUEUED has its file row and object |
| `Upload.TerminalStatesAreLeftOnlyByTheWorker` | `backend/app/services/dataset_multipart_upload_service.py:206-282` | a terminal status changes exactly when the worker ends an ingestion that was cancelled while running |
| `Upload.WorkerExactly` | `backend/app/worker/tasks/ingestion.py:175-230` | the worker starts exactly on a queued upload, cleans up on a cancellation it sees, and ends in COMPLETE or FAILED |
| `Upload.CancelledBecomesComplete` | `backend/app/worker/tasks/ingestion.py:175-230` | a run of a one-byte upload in which CANCELLED becomes COMPLETE |
| `Upload.EarlyCancelLeavesNothing` | `backend/app/services/dataset_multipart_upload_service.py:206-282` | cancelling from INITIATED or QUEUED leaves no session, object, file row or record, then or after anything that follows |
| `Upload.CompletionSucceedsExactly` | `backend/app/services/dataset_multipart_upload_service.py:146-165` | completion succeeds exactly if the upload is open, every part from 1 to `total_parts` has arrived, and they fit on one page of the listing |
| `Upload.OverlongUploadsNeverComplete` | `backend/app/services/dataset_multipart_upload_service.py:158-165` | over every run, an upload of more parts than one page lists is never stored |
| `Upload.OnePartTooMany` | `backend/app/services/dataset_multipart_upload_service.py:73-75` | one byte more than 1000 parts hold makes 1001 parts |
| `Upload.RoundTrip` | `backend/app/services/dataset_multipart_upload_service.py:75-179` | for every file, order of calls and retry: whatever object is stored is the file byte for byte, and QUEUED, PROCESSING and COMPLETE have it, with its size on record |
| `Upload.UploadRecord.constructor` | `backend/app/services/dataset_multipart_upload_service.py:77-90` | a new upload satisfies the invariant, is INITIATED, and holds nothing yet of any file of its size |
| `Upload.UploadRecord.PresignPart` | `backend/app/services/dataset_multipart_upload_service.py:98-118` | exactly an INITIATED upload hands out URLs, for its own part numbers; whatever was handed out lies in 1 to `total_parts`, and the invariant is kept |
| `Upload.UploadRecord.PutPart` | `backend/app/services/dataset_multipart_upload_service.py:98-118` | putting a slice in its place, first time or again, keeps storage to slices of the file |
| `Upload.UploadRecord.MarkPartUploaded` | `backend/app/services/dataset_multipart_upload_service.py:121-143` | progress grows by the size of the part, up to the size of the file and never past it; the invariant is kept |
| `Upload.UploadRecord.CompleteMultipartUpload` | `backend/app/services/dataset_multipart_upload_service.py:146-203` | succeeds exactly if every part arrived and one page lists them all, and then stores the file whose slices were put; the invariant is kept |
| `Upload.UploadRecord.Cancel` | `backend/app/services/dataset_multipart_upload_service.py:206-282` | refused exactly in terminal statuses; from INITIATED or QUEUED it leaves nothing behind; the invariant is kept |
| `Upload.UploadRecord.RunLargeFileUpload` | `frontend/src/context/UploadTrackerContext.tsx:236-262` | the browser's loop ends with the whole file stored and its progress at the file size exactly if it is not aborted and the parts fit on one page of the listing; otherwise the upload is still open and stores nothing |
| `Effects.SubmissionStoresWhatWasAsked` | `backend/app/services/requests_service.py:137-180` | a request is accepted exactly for a published dataset from an existing user, and stored new, PENDING, with the user, dataset and criteria submitted; nothing else is written |
| `Effects.SubmittedScopeIsGranted` | `backend/app/services/requests_service.py:384-419` | over every run from the submission, the grant an approval gives for it is the submitter's, on that dataset, with the criteria submitted unless overridden, and so it stays |
| `Effects.RejectionExactly` | `backend/app/services/requests_service.py:439-460` | exactly a PENDING request is rejected; it keeps its content and nothing else is written |
| `Effects.ExtensionExactly` | `backend/app/services/requests_service.py:545-551` | exactly an ACTIVE grant with a computable expiry gets it, computed from its own; nothing else is written |
| `Effects.RevocationExactly` | `backend/app/services/requests_service.py:578-602` | exactly an ACTIVE grant is revoked: its holder's counter drops by one, its extractions in flight fail, and nothing else is written |
| `Effects.SweepExactly` | `backend/app/worker/tasks/notifications.py:231-272` | exactly the ACTIVE grants of the users due are revoked, with their extractions in flight |
| `Effects.DeletionKeepsOthers` | `backend/app/services/admin_datasets_service.py:216-275` | requests and download logs of other datasets survive a deletion unchanged |
| `Effects.ExtractionExactly` | `backend/app/services/extraction_service.py:23-45` | an extraction starts exactly for the holder of an ACTIVE grant before its expiry, within its scope, and is stored with that scope |
| `Effects.DownloadExactly` | `backend/app/routers/requests.py:179-195` | exactly the holder's COMPLETE extraction of an ACTIVE grant is logged, once, and nothing else is written |
| `Effects.WorkerExactly` | `backend/app/worker/tasks/extraction.py:32-70` | a worker writes PROCESSING when it starts and COMPLETE or FAILED when it ends, to its extraction alone |
| `Lifecycle.RevocationCounts` | `backend/app/services/requests_service.py:582-585` | revoking ACTIVE grants lowers each holder's counter by exactly the grants lost; the clamp at zero never takes effect |
| `Lifecycle.StepKeepsInv` | `backend/app/services/requests_service.py:384-616` | every call keeps each counter equal to the user's ACTIVE grants and each request with the number of grants its status calls for |
| `Lifecycle.EmptyPortalSatisfiesInv` | `backend/app/services/requests_service.py:129-182` | a portal with users and datasets and nothing requested satisfies the invariant |
| `LifecycleRuns.Run` | `backend/app/services/requests_service.py:384-616` | over every run of calls, sweeps and worker steps the invariant holds |
| `LifecycleRuns.RequestHistory` | `backend/app/services/requests_service.py:373-472` | over every run: submitted criteria never change, APPROVED and REJECTED are final, an APPROVED request has exactly one grant and any other none |
| `LifecycleRuns.ApprovalGrantsScope` | `backend/app/services/requests_service.py:384-423` | approval succeeds exactly for a pending request with a computable expiry, and gives the requester one ACTIVE grant until then with the override if given, else the submitted criteria; the requester's counter goes up by one and nothing else moves |
| `LifecycleRuns.GrantHistory` | `backend/app/services/requests_service.py:401-413` | over every run a grant's holder, dataset, request and scope are fixed, and a revoked grant stays revoked |
| `LifecycleRuns.NoDownloadAfterRevocation` | `backend/app/routers/requests.py:179-195` | over every run after a revocation, late workers included, the grant gains no download log |
| `LifecycleRuns.OnlyALateWorkerRevives` | `backend/app/services/requests_service.py:589-602` | every step keeps revoked grants free of extractions in flight, except exactly a worker starting one of an inactive grant |
| `LifecycleRuns.NoneInFlightOverRuns` | `backend/app/services/requests_service.py:589-602` | over every run: no revoked grant ever has an extraction queued or processing, if and only if no worker starts one late |
| `Scenarios.RevokedAndProcessing` | `backend/app/worker/tasks/extraction.py:32-45` | a run from an empty portal to a REVOKED grant with an extraction PROCESSING |
| `LifecycleRuns.ArchivingRevokes` | `backend/app/services/admin_datasets_service.py:172-192` | archiving leaves the dataset without ACTIVE grants, other datasets' grants and extractions untouched, and each counter lower by the grants its user held there |
| `LifecycleRuns.OnlyApprovalGrants` | `backend/app/services/requests_service.py:384-419` | a dataset without ACTIVE grants gets one exactly by an approval of a request on it |
| `LifecycleRuns.NoGrantAfterArchivingExactly` | `backend/app/services/admin_datasets_service.py:172-192` | over every run after archiving: the dataset stays without ACTIVE grants throughout, if and only if no approval of a request on it goes through |
| `LifecycleRuns.ApprovalIgnoresArchiving` | `backend/app/services/requests_service.py:384-419` | and any request still pending does get its grant |
| `Scenarios.ArchivedAndGranted` | `backend/app/services/admin_datasets_service.py:172-192` | a run from an empty portal to an ARCHIVED dataset with an ACTIVE grant |
| `LifecycleRuns.DeletingErases` | `backend/app/services/admin_datasets_service.py:216-275` | deletion leaves no request, grant or extraction of the dataset and touches no other's |
| `Handouts.HandoutsOverRuns` | `backend/app/services/extraction_service.py:16-40` | over every run each extraction passed the check against the scope its grant has, and every download log is the grant holder's, for an extraction of that grant |
| `Handouts.ExtractionsSelectGrantedRecords` | `backend/app/services/extraction_service.py:31-37` | an existing extraction selects only records the grant selects exactly if it sets the fields the grant sets, its dates are in step and its corners hold |
| `Handouts.ExtendingStartsFromTheExpiry` | `backend/app/services/requests_service.py:548-551` | a run of extensions ends at the expiry computed step by step from the grant's own, not from now |
| `PortalService.RevokingTwice` | `backend/app/services/admin_datasets_service.py:179-182` | revoking one set of grants and then another is revoking their union, so the order of the loop does not matter |
| `PortalService.Portal.Approve` | `backend/app/services/requests_service.py:373-436` | commits exactly the approval, or nothing and the error, and keeps the invariant |
| `PortalService.Portal.Reject` | `backend/app/services/requests_service.py:439-472` | commits exactly the rejection of a pending request |
| `PortalService.Portal.Extend` | `backend/app/services/requests_service.py:536-568` | replaces the expiry of an ACTIVE grant and nothing else |
| `PortalService.Portal.Revoke` | `backend/app/services/requests_service.py:571-616` | status, counter and the loop over extractions in flight together are the revocation of one grant |
| `PortalService.Portal.Archive` | `backend/app/services/admin_datasets_service.py:172-192` | the loop of single revocations is the joint revocation of all the dataset's ACTIVE grants |
| `PortalService.Portal.PermanentlyDelete` | `backend/app/services/admin_datasets_service.py:216-275` | the same loop, then the row's cascade over requests, grants, extractions and logs |
| `PortalService.Portal.SweepDeletions` | `backend/app/worker/tasks/notifications.py:231-272` | the nested loops revoke exactly the ACTIVE grants of users past their grace period |
| `PortalService.Portal.Extract` | `backend/app/services/extraction_service.py:16-63` | the guards in order, and the row that a small dataset takes through PROCESSING within the call |
| `PortalService.Portal.Download` | `backend/app/routers/requests.py:167-195` | one log row for the holder's COMPLETE extraction of an ACTIVE grant, else the error |
| `PortalService.Portal.Create` | `backend/app/services/requests_service.py:129-182` | commits exactly the submission that `Effects` describes, or nothing and the error, and keeps the invariant |
| `Purge.OwnedByOne` | `backend/app/services/storage/keys.py:22-76` | no object key lies in the folders of two datasets |
| `Purge.ErasesOnlyItsOwn` | `backend/app/services/admin_datasets_service.py:225-249` | deleting a dataset, prefixes included, erases no object of another |
| `Purge.Archive.EraseFile` | `backend/app/services/admin_datasets_service.py:225-239` | the raw object goes, and the processed object or else everything under the processed prefix |
| `Purge.Archive.PermanentlyDelete` | `backend/app/services/admin_datasets_service.py:225-275` | every raw and processed object of its files and its snapshot are gone, and no object they do not reach; the rows go together, unless (exactly) a record of another dataset points at one of its files; foreign keys always hold |
| `Coverage.EveryCommitShows` | `backend/app/models/catalog.py:105-123` | each ingestion commit raises the version |
| `Coverage.QuietExactlyIfSameVersion` | `backend/app/services/requests_service.py:137-168` | two queries see the same version exactly if nothing was committed between them, and then the same contents |
| `Coverage.MatchesCounts` | `backend/app/services/catalog_service.py:506-516` | the count of matching records is their number |
| `Coverage.PooledAre` | `backend/app/services/catalog_service.py:571-595` | exactly Parquet and chunked files add their records |
| `Coverage.TargetsCoverTheFiles` | `backend/app/services/catalog_service.py:571-639` | SQL rows, Parquet files and chunked files together count every record once |
| `Coverage.UnflaggedSnapshotsAreCurrent` | `backend/app/services/requests_service.py:242-259` | for every interleaving: flagged exactly if something was committed after the version was read; if not flagged, the stored counts are those of the current contents |
| `Coverage.MatchingWithinTotal` | `backend/app/services/requests_service.py:156` | matching never exceeds total unless SQL rows disappear between two queries |
| `Coverage.Catalogue.CountCoverage` | `backend/app/services/catalog_service.py:598-639` | the loops over files, with commits falling between any two queries, compute that interleaved count and stop at a file that is gone |
| `Ingestions.FlagIsExactIfNoReadIsOutdated` | `backend/app/worker/tasks/ingestion.py:707-760` | for overlapping ingestions: the flag is exact, whenever captured and whenever looked at, if and only if none commits on a version read outdated by another |
| `Ingestions.OutdatedReadRepeatsAVersion` | `backend/app/worker/tasks/ingestion.py:730` | the first such commit writes a version already given out |
| `Ingestions.UpToDateIsAtomic` | `backend/app/worker/tasks/ingestion.py:707-760` | without them ingestions are the atomic commits of the snapshot theorems |
| `Ingestions.SecondFileGoesUnnoticed` | `backend/app/worker/tasks/ingestion.py:707-760` | two files ingested side by side: a request counted between their commits stays unflagged |
| `Roles.RunKeepsInv` | `backend/app/services/admin_users_service.py:226-318` | over every interleaving of safe steps: holding a role other than "User" means coarse admin, and without role deletions the converse too; one membership row per user and role |
| `Roles.RaceFreeRunsStayInSync` | `backend/app/services/admin_users_service.py:140-318` | in particular over every run in which no admin-panel role is assigned to a user while that user is being anonymized |
| `Roles.SeededSatisfiesInv` | `backend/app/services/admin_users_service.py:226-243` | a freshly seeded portal starts in such a state |
| `Roles.AnonymizingKeepsSyncExactly` | `backend/app/services/admin_users_service.py:171-186` | anonymizing keeps the two in step exactly if the memberships it read include every admin-panel role held when it commits |
| `RoleScenarios.AssignmentRuns` | `backend/app/services/admin_users_service.py:246-277` | uninterrupted, the locked steps are the assignment |
| `Roles.OnlyAnAssignmentOutdatesTheRead` | `backend/app/services/admin_users_service.py:171-186` | that read is outdated exactly by an assignment of such a role to the same user |
| `RoleScenarios.AnonymizedAndHolding` | `backend/app/services/admin_users_service.py:171-186` | a run from a seeded portal that ends with coarse role "user" and an admin-panel membership |
| `Roles.DeletingKeepsSyncExactly` | `backend/app/services/admin_roles_service.py:115-130` | deleting a role keeps coarse admin exact unless it was some user's only admin-panel role |
| `RoleScenarios.AdminHoldingNothing` | `backend/app/services/admin_roles_service.py:115-130` | a run that ends with coarse role "admin" and no membership |
| `Roles.UnassigningFailsExactly` | `backend/app/services/admin_users_service.py:298-308` | taking away an admin-panel role fails exactly if the user holds three or more |
| `RoleScenarios.ThreeRolesStay` | `backend/app/services/admin_users_service.py:298-308` | a run that assigns three roles and cannot take one back |
| `Roles.AssignmentExactly` | `backend/app/services/admin_users_service.py:246-277` | assigning gives the role once, makes the user admin exactly for a new role other than "User", and leaves every other membership and user alone |
| `Roles.UnassignmentExactly` | `backend/app/services/admin_users_service.py:280-318` | unassigning takes that membership, demotes exactly when no admin-panel role is left, and leaves the rest alone |
| `Roles.InvitationExactly` | `backend/app/services/admin_team_service.py:91-129` | an invitation adds one user with one membership, admin exactly if the role is not "User" |
| `Roles.CreationExactly` | `backend/app/services/admin_roles_service.py:46-68` | a role is created exactly under a free name |
| `Roles.RenamingExactly` | `backend/app/services/admin_roles_service.py:70-112` | a role is renamed exactly if the name is free and, for the five seeded ones, unchanged |
| `Roles.DeletionExactly` | `backend/app/services/admin_roles_service.py:115-130` | exactly a role that is not seeded is deleted, with its memberships and nothing else |
| `Roles.AssignmentIsAtomic` | `backend/app/services/admin_users_service.py:246-277` | the steps under the row lock commit one atomic assignment |
| `Roles.UnassignmentIsAtomic` | `backend/app/services/admin_users_service.py:280-318` | the steps under the row lock commit one atomic unassignment, whatever other transactions did meanwhile, role deletions aside |
| `Roles.RoleRenamedKeeps` | `backend/app/services/admin_roles_service.py:70-112` | no renaming changes who counts as admin, and names stay unique |
| `Roles.InvitedKeeps` | `backend/app/services/admin_team_service.py:91-129` | an invited user starts in step, and nobody else is touched |
| `RoleService.RoleAdmin.AssignRole` | `backend/app/services/admin_users_service.py:246-277` | uninterrupted, the assignment; nothing for a role already held |
| `RoleService.RoleAdmin.UnassignRole` | `backend/app/services/admin_users_service.py:280-318` | uninterrupted, the unassignment with demotion exactly when no admin-panel role is left, and its failure |
| `RoleService.RoleAdmin.AnonymizeUser` | `backend/app/services/admin_users_service.py:140-197` | uninterrupted: no membership, no live session, plain role |
| `RoleService.AssignThenUnassign` | `backend/app/services/admin_users_service.py:246-318` | taking back what was just assigned restores every row and the coarse role |
| `Outliers.BeyondThreeDeviations` | `backend/app/services/admin_qc_service.py:119-131` | comparing squares with nine variances is being more than three deviations away |
| `Outliers.OutlierBound` | `backend/app/services/admin_qc_service.py:107-134` | `k` outliers in a group of `n` rows need 9k < n - 1 |
| `Outliers.OutlierBoundIsExact` | `backend/app/services/admin_qc_service.py:107-134` | and every `k` and `n` with 9k < n - 1 do occur: the bound cannot be improved |
| `QualityDesk.DatasetBound` | `backend/app/services/admin_qc_service.py:107-161` | over all parameters and files, an outlier issue takes 11 values and a MEDIUM one 92 |
| `QualityDesk.FlaggedFromElevenMediumFromNinetyTwo` | `backend/app/services/admin_qc_service.py:107-161` | and 11 and 92 are enough: some dataset of `n` values is flagged exactly from 11 on, and as MEDIUM exactly from 92 on |
| `QualityScan.DuplicatesAreSharedSlots` | `backend/app/services/admin_qc_service.py:66-78` | rows are duplicated exactly if grouping those with a time or station by (time, station, parameter) gives fewer groups than rows |
| `QualityDesk.MissingBelowNinetyFivePercent` | `backend/app/services/admin_qc_service.py:164-202` | 94 rows of 100 declared are too few, 95 are not |
| `QualityDesk.DetectDuplicates` | `backend/app/services/admin_qc_service.py:54-104` | one OPEN issue for each dataset with duplicate rows or a file with them, unless it has one |
| `QualityDesk.DetectOutliers` | `backend/app/services/admin_qc_service.py:107-161` | the same for outliers, with the severity from the total over SQL groups and files |
| `QualityDesk.DetectMissing` | `backend/app/services/admin_qc_service.py:164-202` | the same for datasets under 95% of their declared count |
| `QualityDesk.TotalOutliers` | `backend/app/services/admin_qc_service.py:114-145` | the accumulating loops give each dataset's total, and list exactly those with any |
| `QualityScan.ScanReportsExactly` | `backend/app/services/admin_qc_service.py:205-233` | after a scan a dataset has an open issue of a kind exactly if it had one or is flagged, and never two |
| `QualityScan.RescanAddsNothing` | `backend/app/services/admin_qc_service.py:205-233` | scanning again before anything changes adds no issue |
| `QualityScan.UniqueOverRuns` | `backend/app/services/admin_qc_service.py:205-272` | over every run of scans and status changes there is at most one OPEN issue for each dataset and kind |
| `QualityDesk.Desk.RunScan` | `backend/app/services/admin_qc_service.py:205-233` | the table grows by exactly such a report |
| `QualityDesk.Desk.UpdateStatus` | `backend/app/services/admin_qc_service.py:258-272` | one issue's status changes, to RESOLVED or IGNORED |
| `RowMask.Narrow` | `backend/app/services/extractors/mat_extractor.py:111-120` | `mask &= test` keeps exactly the rows that were kept and pass |
| `RowMask.BuildMask` | `backend/app/services/extractors/mat_extractor.py:90-122` | the array built in place is the mask of the rows that pass; what passing means is `RowMask.ExactlyTheWantedRowsComeOut` |
| `RowMask.ExactlyTheWantedRowsComeOut` | `backend/app/services/extractors/mat_extractor.py:58-122` | from file to file: one increasing list of row numbers; each variable of the table comes out with its cells there; a row is listed exactly if its latitude, longitude and time lie within what is asked, and so do all that come out |
| `RowMask.FindIsFirstAlias` | `backend/app/services/extractors/mat_extractor.py:91-99` | the variable taken for a column goes by the first alias any variable goes by, up to case, and is the last of that name |
| `RowMask.OneLatitude` | `backend/app/services/extractors/mat_extractor.py:114-118` | a one-row file of a latitude, under any alias and case, keeps its row exactly within the latitude bounds |
| `RowMask.OneLongitude` | `backend/app/services/extractors/mat_extractor.py:114-120` | the same for a longitude |
| `RowMask.OneTime` | `backend/app/services/extractors/mat_extractor.py:101-112` | the same for a MATLAB day number between two dates |
| `RowMask.OneOther` | `backend/app/services/extractors/mat_extractor.py:91-122` | a variable that goes by no alias decides nothing |
| `RowMask.RowsStayAligned` | `backend/app/services/extractors/mat_extractor.py:67-88` | one increasing list of row numbers, exactly the rows that pass, serves every filterable variable, and its length is `record_count` |
| `RowMask.EveryVariableComesOut` | `backend/app/services/extractors/mat_extractor.py:67-75` | each variable comes out once, filtered if it has the common length, unchanged if not |
| `RowMask.Extract` | `backend/app/services/extractors/mat_extractor.py:58-88` | the extraction: masked variables, then the others, and the count; an empty file is an error |
| `RowMask.RemaskingDropsNothing` | `backend/app/services/extractors/mat_extractor.py:90-122` | masking the kept rows with the same scope drops no row and changes no variable |
| `GridSampling.FlatCap` | `backend/app/services/gridded_query_service.py:282-285` | the flattened loop visits at most the cap, and more than half of it when it cuts |
| `GridSampling.FlatStrideIsLeast` | `backend/app/services/gridded_query_service.py:282-285` | no smaller stride keeps the flattened loop within the cap |
| `GridSampling.AxisCapWhenDividing` | `backend/app/services/gridded_query_service.py:261-270` | the two-axis loop visits at most the cap when the stride divides both axes |
| `GridSampling.AxisCapInGeneral` | `backend/app/services/gridded_query_service.py:261-270` | otherwise fewer than cap + (a + b) / s + 1 |
| `GridSampling.SingleRowCap` | `backend/app/services/gridded_query_service.py:261-270` | a one-row grid stays within the cap exactly if it is at most twice as long |
| `GridSampling.AxisStride` | `backend/app/services/gridded_query_service.py:268` | the stride is the least whose square brings the total within the cap |
| `GridSampling.VisitsEachOnce` | `backend/app/services/gridded_query_service.py:269-272` | exactly the cells at multiples of the stride are visited, each once |
| `GridSampling.SampleAxes` | `backend/app/services/gridded_query_service.py:269-281` | the strided loops emit exactly the visited cells that may be shown, in order |
| `GridSampling.SampleFlat` | `backend/app/services/gridded_query_service.py:282-296` | the flattened loop emits exactly the visited cells that may be shown, within the cap |
| `GridSampling.PointsShownExactly` | `backend/app/services/gridded_query_service.py:273-281` | a point is shown exactly for a visited cell with its latitude, longitude and value, on the globe, with a number unless the values are not double-precision |
| `GridSampling.FlatPointsShownExactly` | `backend/app/services/gridded_query_service.py:286-296` | the same for the flattened loop |
| `GridSampling.NaNShownExactly` | `backend/app/services/gridded_query_service.py:86-101` | points lie on the globe, and one without a number is shown exactly when values are single-precision and a visited cell at a valid place has none |
| `GridSampling.FlatNaNShownExactly` | `backend/app/services/gridded_query_service.py:282-296` | the same condition for the flattened loop |
| `GridSampling.MissingValueShown` | `backend/app/services/gridded_query_service.py:274-281` | a one-cell grid without a value: shown in single precision, not in double |
| `Lockout.EveryWindowHoldsFive` | `backend/app/services/auth_service.py:148-169` | every window of fifteen minutes holds at most five recorded failures of one email |
| `Lockout.RunKeepsInv` | `backend/app/services/auth_service.py:106-169` | over every run of attempts the record stays one of which that is true |
| `Lockout.LockedExactlyUntilRelease` | `backend/app/services/auth_service.py:154-169` | locked exactly until fifteen minutes after the fifth most recent failure |
| `Lockout.LockoutIsNotProlonged` | `backend/app/services/auth_service.py:106-169` | whatever is tried meanwhile, the lockout ends at that time, within fifteen minutes of the last recorded failure |
| `Lockout.LoginDesk.Authenticate` | `backend/app/services/auth_service.py:106-169` | who gets in: exactly the right password for a verified account that is not suspended, with fewer than five failures in fifteen minutes; each refusal exactly for its reason; exactly a wrong password and a suspended account, when not locked out, are recorded |
| `Sessions.LiveExactlyUntilEnded` | `backend/app/services/auth_service.py:207-311` | over every run a session is live until the first call that ends it, dead ever after, and its revocation time is written once |
| `Sessions.NoRefreshAfterNewPassword` | `backend/app/services/auth_service.py:257-311` | after a password change or reset no refresh token issued to the user before it ever succeeds |
| `Sessions.SurvivorsAreTheNewlyIssued` | `backend/app/services/auth_service.py:303-311` | with calls committed between its read and its write, exactly the sessions issued in between survive |
| `Sessions.LoginSurvivesReset` | `backend/app/services/auth_service.py:257-274` | a token issued between a reset's read and its write refreshes for as long as it lasts |
| `Sessions.RewrittenExactly` | `backend/app/services/auth_service.py:303-311` | and a revocation time is overwritten exactly if the session was ended in between |
| `Sessions.AuthService.RefreshAccess` | `backend/app/services/auth_service.py:207-233` | refreshing succeeds exactly for an unexpired token of a live session and an account that is there and not suspended |
| `Sessions.AuthService.Revoke` | `backend/app/services/security_service.py:23-32` | only the owner's live session is revoked, once, and nothing else changes |
| `Sessions.AuthService.RevokeAll` | `backend/app/services/auth_service.py:303-311` | the loop revokes exactly the user's live sessions, now |
| `Sessions.AuthService.Change` | `backend/app/services/auth_service.py:294-301` | a right current password is replaced by the new one and every live session of the user revoked; a wrong one changes nothing |
| `Sessions.AuthService.Reset` | `backend/app/services/auth_service.py:257-274` | a reset replaces the password by the new one and revokes every live session of the user |
| `CmsCache.OrderedSameElements` | `backend/app/services/cms_service.py:26-30` | a page has only one ordered listing |
| `CmsCache.RunKeepsCoherent` | `backend/app/services/cms_service.py:18-50` | over every orderly run what is cached for a page is its listing |
| `CmsCache.ListingOutdatedExactly` | `backend/app/services/admin_cms_service.py:31-103` | a listing stays right exactly if the call changed nothing on its page |
| `CmsCache.LostDeleteExactly` | `backend/app/core/cache.py:65-71` | when the delete is lost, coherence survives exactly if the page was not cached or not changed |
| `CmsCache.LateStoreExactly` | `backend/app/services/cms_service.py:31-46` | a read that stores after another call committed is right exactly if that call left the page alone |
| `CmsCache.Cms.GetBlocks` | `backend/app/services/cms_service.py:18-50` | whether or not the cache answers, exactly the page's (active) blocks, by display order and then by key |
| `CmsCache.Cms.CreateBlock` | `backend/app/services/admin_cms_service.py:31-62` | a new custom block and its page uncached, or a taken key |
| `CmsCache.Cms.UpdateBlock` | `backend/app/services/admin_cms_service.py:65-85` | the block's new fields and its page uncached |
| `CmsCache.Cms.DeleteBlock` | `backend/app/services/admin_cms_service.py:88-103` | the block gone and its page uncached; system blocks are refused |

## Left out

- Scope.ContainmentExactly: requires a satisfiable request; one that selects nothing is contained in any grant, accepted or not.
- Coverage.UnflaggedSnapshotsAreCurrent: its commits raise the version; `Ingestions` says exactly when overlapping ingestions do. Clean-up that removes a file without touching the version is not a commit here.
- Coverage.Catalogue.CountCoverage: which records match is one given predicate; the separate SQL, DuckDB and xarray filter code for it, and the rounding of the percentage, are not modelled.
- Roles.RunKeepsInv: an `anonymize_user` step is safe under the exact condition of `AnonymizingKeepsSyncExactly`; the false general claim is left out for that reason.
- Lockout.EveryWindowHoldsFive: attempts are one after another on one clock; two concurrent attempts can both count before either is recorded.
- QualityDesk.DetectMissing: compares 100 times the actual with 95 times the declared count; the source multiplies by the float 0.95.
- GridSampling.AxisStride: the exact integer square root bound; the source takes a floating-point square root.
- UploadSlices.TotalParts: exact division; the source divides as floats, which agree below 2^53 bytes.
- Sessions and logins: password hashing, token encoding and the clock skew of decoding; tokens are unforgeable records, passwords are compared as they are.
- The single-request upload path, Parquet and NetCDF extraction, and the ingestion parsers.
- What an extraction does when the request omits a field the grant restricts, beyond the containment lemmas.
- Grants that expire: the EXPIRED status is set by a scheduled job that is not part of this model; downloads do not look at the expiry.
- Concurrent revocations, approvals and extensions: each lifecycle call is one step, although the bulk loops commit once per grant.
- Accounts that join without a membership (registration, user invitations), profile fields, suspension of admins.
- Infinite and complex cells of `.mat` variables, integer overflow of day numbers, non-ASCII letters in variable names, variables that are not numeric.
- Order of SQL results where the source asks for none, and the database's collation for keys outside ASCII.
- Values that SQL rejects (a null display order, an over-long name), numeric precision of stored columns, the ORM's identity map.
- Notifications, e-mail, audit log entries, rate limits, storage and cache outages other than those modelled as events.
