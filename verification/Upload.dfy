/**
 The multipart upload protocol: the server's five calls, the storage session behind them, the ingestion
 worker that follows, and the browser's part loop.

 `State` is one upload with everything that hangs off it; uploads never share a session, key or file row,
 because all of them carry the upload's own fresh id. The functions are the meaning of one atomic call each.
 */
module Upload {
  import opened Outcomes
  import opened UploadSlices

  datatype Status = Initiated | Queued | Processing | Complete | Failed | Cancelled {
    predicate Terminal() { Complete? || Failed? || Cancelled? }
  }

  /** The ingestion task: sent off when the upload is finalised, and then run at most once. */
  datatype Task = Unsent | Sent | Running | Done

  datatype State = State(
    status: Status,
    totalSizeBytes: nat,
    totalParts: nat,
    uploadedBytes: int,
    linked: bool,                           // dataset_file_id is not null
    presigned: set<nat>,                    // part numbers for which a URL was handed out
    session: Option<map<nat, seq<byte>>>,   // the open multipart session and the parts it holds
    stored: Option<seq<byte>>,              // the stored object under the upload's key
    fileRow: Option<nat>,                   // the DatasetFile row, with its recorded size
    records: nat,                           // DatasetRecord rows pointing at the file
    task: Task)

  datatype Error =
    | DatasetNotFound | UnsupportedType | TooLarge | Empty
    | WrongStatus(status: Status) | PartOutOfRange | PartsMissing(expected: nat, found: nat)

  // ---------------------------------------------------------------- server calls

  function Initiate(size: nat, limitBytes: nat, datasetExists: bool, supportedType: bool): Result<State, Error> {
    if !datasetExists then Err(DatasetNotFound)
    else if !supportedType then Err(UnsupportedType)
    else if size > limitBytes then Err(TooLarge)
    else if size == 0 then Err(Empty)
    else Ok(State(Initiated, size, TotalParts(size), 0, false, {}, Some(map[]), None, None, 0, Unsent))
  }

  function Presign(s: State, n: int): Result<State, Error> {
    if s.status != Initiated then Err(WrongStatus(s.status))
    else if !(1 <= n <= s.totalParts) then Err(PartOutOfRange)
    else Ok(s.(presigned := s.presigned + {n}))
  }

  /** A PUT straight to storage: it lands only through a presigned URL and only while the session is open. */
  function Put(s: State, n: nat, data: seq<byte>): State {
    if s.session.Some? && n in s.presigned then s.(session := Some(s.session.value[n := data])) else s
  }

  function MarkPart(s: State, size: int): Result<State, Error> {
    if s.status != Initiated then Err(WrongStatus(s.status))
    else
      var cap := if s.totalSizeBytes != 0 then s.totalSizeBytes else size;
      Ok(s.(uploadedBytes := Min(s.uploadedBytes + size, cap)))
  }

  /**
   What one `list_parts` call can answer: parts the session holds, each once, in any order, and all of
   them unless they are more than fit on one page of `page` parts. A session that is gone lists nothing.
   */
  ghost predicate IsListing(listing: seq<Part>, session: Option<map<nat, seq<byte>>>, page: nat) {
    if session.None? then listing == []
    else
      && DistinctNumbers(listing)
      && (forall p :: p in listing ==> p.number in session.value && p.data == session.value[p.number])
      && |listing| == Min(|session.value|, page)
  }

  function CompleteUpload(s: State, listing: seq<Part>): Result<State, Error> {
    if s.status != Initiated then Err(WrongStatus(s.status))
    else if |listing| != s.totalParts then Err(PartsMissing(s.totalParts, |listing|))
    else
      var whole := Flatten(DataOf(Sorted(listing)));
      Ok(s.(session := None, stored := Some(whole), fileRow := Some(|whole|), linked := true, status := Queued,
            uploadedBytes := if s.totalSizeBytes != 0 then s.totalSizeBytes else s.uploadedBytes, task := Sent))
  }

  function CancelUpload(s: State): Result<State, Error> {
    match s.status
    case Initiated => Ok(s.(session := None, status := Cancelled))
    case Queued =>
      var swept := if s.linked
                   then (if s.fileRow.Some? then s.(stored := None, records := 0, fileRow := None) else s)
                   else s.(stored := None);
      Ok(swept.(linked := false, status := Cancelled))
    case Processing => Ok(s.(status := Cancelled))
    case _ => Err(WrongStatus(s.status))
  }

  // ---------------------------------------------------------------- the ingestion worker

  function StartTask(s: State): State {
    if s.task != Sent then s
    else if s.fileRow.None? || s.status == Cancelled then s.(task := Done)
    else s.(status := Processing, task := Running)
  }

  function WriteRecords(s: State, n: nat): State {
    if s.task == Running then s.(records := s.records + n) else s
  }

  /** Deleting the file row nulls the upload's reference to it. The raw object stays. */
  function Cleanup(s: State): State {
    s.(records := 0, fileRow := None, linked := false)
  }

  /** A checkpoint that sees the cancellation cleans up; any other lets the ingestion go on. */
  function Checkpoint(s: State): State {
    if s.task == Running && s.status == Cancelled then Cleanup(s).(task := Done) else s
  }

  function FinishTask(s: State): State {
    if s.task == Running then s.(status := Complete, linked := true, task := Done) else s
  }

  function FailTask(s: State, cleanup: bool): State {
    if s.task != Running then s else (if cleanup then Cleanup(s) else s).(status := Failed, task := Done)
  }

  // ---------------------------------------------------------------- runs

  datatype Event =
    | EPresign(number: int)
    | EPut(n: nat, data: seq<byte>)
    | EMark(size: int)
    | EComplete(listing: seq<Part>)
    | ECancel
    | EStart
    | EWrite(count: nat)
    | ECheckpoint
    | EFinish
    | EFail(cleanup: bool)

  function Kept(s: State, r: Result<State, Error>): State {
    if r.Ok? then r.value else s
  }

  function Step(s: State, e: Event): State {
    match e
    case EPresign(number) => Kept(s, Presign(s, number))
    case EPut(n, data) => Put(s, n, data)
    case EMark(size) => Kept(s, MarkPart(s, size))
    case EComplete(listing) => Kept(s, CompleteUpload(s, listing))
    case ECancel => Kept(s, CancelUpload(s))
    case EStart => StartTask(s)
    case EWrite(count) => WriteRecords(s, count)
    case ECheckpoint => Checkpoint(s)
    case EFinish => FinishTask(s)
    case EFail(cleanup) => FailTask(s, cleanup)
  }

  function Run(s: State, events: seq<Event>): State {
    if events == [] then s else Step(Run(s, events[..|events| - 1]), events[|events| - 1])
  }

  /** What the environment may do next: storage lists honestly, and the schema admits positive sizes only. */
  ghost predicate Possible(s: State, e: Event, page: nat) {
    && (e.EComplete? ==> IsListing(e.listing, s.session, page))
    && (e.EMark? ==> e.size > 0)
  }

  ghost predicate PossibleRun(s: State, events: seq<Event>, page: nat) {
    forall i :: 0 <= i < |events| ==> Possible(Run(s, events[..i]), events[i], page)
  }

  /** The browser's side: whatever it PUTs as part `n`, first try or retry, is slice `n` of the file. */
  predicate PutsSlicesOf(file: seq<byte>, events: seq<Event>) {
    forall i :: 0 <= i < |events| && events[i].EPut? ==>
      1 <= events[i].n <= TotalParts(|file|) && events[i].data == Slice(file, events[i].n)
  }

  // ---------------------------------------------------------------- the state machine

  predicate Clean(s: State) {
    s.session.None? && s.stored.None? && s.fileRow.None? && !s.linked && s.records == 0
  }

  ghost predicate Inv(s: State) {
    && s.totalSizeBytes > 0 && s.totalParts == TotalParts(s.totalSizeBytes)
    && 0 <= s.uploadedBytes <= s.totalSizeBytes
    && (forall n :: n in s.presigned ==> 1 <= n <= s.totalParts)
    && (s.session.Some? <==> s.status == Initiated)
    && (s.session.Some? ==> s.session.value.Keys <= s.presigned)
    && (s.status == Initiated ==> s.stored.None? && s.fileRow.None? && !s.linked && s.records == 0 && s.task == Unsent)
    && (s.status == Queued ==>
          s.stored.Some? && s.fileRow == Some(|s.stored.value|) && s.linked && s.records == 0 && s.task == Sent
          && s.uploadedBytes == s.totalSizeBytes)
    && (s.status == Processing ==> s.task == Running)
    && (s.task == Running ==>
          (s.status == Processing || s.status == Cancelled) && s.stored.Some? && s.fileRow == Some(|s.stored.value|) && s.linked)
    && (s.status == Cancelled && s.task != Running ==> s.fileRow.None? && !s.linked && s.records == 0)
    && (s.status == Cancelled && s.task in {Unsent, Sent} ==> s.stored.None?)
    && (s.status == Complete || s.status == Failed ==> s.task == Done && s.stored.Some?)
    && (s.status == Complete ==> s.linked && s.fileRow == Some(|s.stored.value|))
  }

  lemma InitiateEstablishesInv(size: nat, limitBytes: nat, datasetExists: bool, supportedType: bool)
    ensures var r := Initiate(size, limitBytes, datasetExists, supportedType);
      && (r.Ok? <==> datasetExists && supportedType && 0 < size <= limitBytes)
      && (r.Ok? ==>
           && Inv(r.value) && r.value.status == Initiated && r.value.totalSizeBytes == size
           && r.value.uploadedBytes == 0 && r.value.presigned == {} && r.value.session == Some(map[]))
      && (r == Err(DatasetNotFound) <==> !datasetExists)
      && (r == Err(UnsupportedType) <==> datasetExists && !supportedType)
      && (r == Err(TooLarge) <==> datasetExists && supportedType && size > limitBytes)
      && (r == Err(Empty) <==> datasetExists && supportedType && size == 0)
  {
  }

  /**
   The worker's part. It starts exactly on a queued upload; a cancellation seen at a checkpoint takes its file
   row and records away; and however it ends, the upload is COMPLETE with its row, or FAILED.
   */
  lemma WorkerExactly(s: State, e: Event, page: nat)
    requires Inv(s) && Possible(s, e, page)
    ensures e.EStart? ==> (Step(s, e).task == Running <==> s.task == Running || s.status == Queued)
    ensures e.EStart? && s.status == Queued ==> Step(s, e) == s.(status := Processing, task := Running)
    ensures e.ECheckpoint? && s.task == Running ==>
      if s.status == Cancelled then Step(s, e) == s.(task := Done, records := 0, fileRow := None, linked := false) else Step(s, e) == s
    ensures e.EWrite? && s.task == Running ==> Step(s, e) == s.(records := s.records + e.count)
    ensures e.EFinish? && s.task == Running ==> Step(s, e) == s.(status := Complete, task := Done)
    ensures e.EFail? && s.task == Running ==>
      && Step(s, e).status == Failed && Step(s, e).task == Done && Step(s, e).stored == s.stored
      && (if e.cleanup then Step(s, e).fileRow.None? && !Step(s, e).linked && Step(s, e).records == 0
          else Step(s, e).fileRow == s.fileRow && Step(s, e).linked && Step(s, e).records == s.records)
    ensures (e.EWrite? || e.ECheckpoint? || e.EFinish? || e.EFail?) && s.task != Running ==> Step(s, e) == s
  {
  }

  lemma StepKeepsInv(s: State, e: Event, page: nat)
    requires Inv(s) && Possible(s, e, page)
    ensures Inv(Step(s, e))
  {
  }

  lemma {:induction false} RunKeepsInv(s: State, events: seq<Event>, page: nat)
    requires Inv(s) && PossibleRun(s, events, page)
    ensures Inv(Run(s, events))
  {
    if events != [] {
      var last := |events| - 1;
      RunsShorten(s, events, page);
      RunKeepsInv(s, events[..last], page);
      assert Possible(Run(s, events[..last]), events[last], page);
      StepKeepsInv(Run(s, events[..last]), events[last], page);
    }
  }

  lemma RunsShorten(s: State, events: seq<Event>, page: nat)
    requires PossibleRun(s, events, page) && events != []
    ensures PossibleRun(s, events[..|events| - 1], page)
  {
    var most := events[..|events| - 1];
    forall i | 0 <= i < |most| ensures Possible(Run(s, most[..i]), most[i], page) {
      assert most[..i] == events[..i];
    }
  }

  /**
   No call of the API leaves a terminal state. The worker's last write does, in one situation only: the
   upload was cancelled while its ingestion was running, and the ingestion reaches its end without another checkpoint.
   */
  lemma TerminalStatesAreLeftOnlyByTheWorker(s: State, e: Event, page: nat)
    requires Inv(s) && Possible(s, e, page) && s.status.Terminal()
    ensures Step(s, e).status != s.status <==> s.status == Cancelled && s.task == Running && (e.EFinish? || e.EFail?)
  {
  }

  /** Cancelling before ingestion starts leaves nothing behind, now or after anything that can happen later. */
  lemma EarlyCancelLeavesNothing(s: State, events: seq<Event>)
    requires Inv(s) && (s.status == Initiated || s.status == Queued)
    ensures var c := Run(CancelUpload(s).value, events);
      CancelUpload(s).Ok? && c.status == Cancelled && Clean(c)
  {
    var c := CancelUpload(s).value;
    assert Clean(c);
    CleanStaysClean(c, events);
  }

  lemma {:induction false} CleanStaysClean(s: State, events: seq<Event>)
    requires s.status == Cancelled && Clean(s) && s.task != Running
    ensures var c := Run(s, events);
      c.status == Cancelled && Clean(c) && c.task != Running
  {
    if events != [] {
      CleanStaysClean(s, events[..|events| - 1]);
    }
  }

  // ---------------------------------------------------------------- the byte-exact round trip

  ghost predicate HoldsOnly(s: State, file: seq<byte>) {
    && s.totalSizeBytes == |file|
    && (s.session.Some? ==> forall n :: n in s.session.value ==>
          1 <= n <= TotalParts(|file|) && s.session.value[n] == Slice(file, n))
    && (s.stored.Some? ==> s.stored.value == file)
  }

  lemma CompletionStoresTheFile(s: State, file: seq<byte>, listing: seq<Part>, page: nat)
    requires Inv(s) && HoldsOnly(s, file) && IsListing(listing, s.session, page)
    requires CompleteUpload(s, listing).Ok?
    ensures CompleteUpload(s, listing).value.stored == Some(file)
  {
    SortedSlicesMakeTheFile(file, listing);
  }

  lemma StepKeepsContent(s: State, e: Event, file: seq<byte>, page: nat)
    requires Inv(s) && HoldsOnly(s, file) && Possible(s, e, page)
    requires e.EPut? ==> 1 <= e.n <= TotalParts(|file|) && e.data == Slice(file, e.n)
    ensures HoldsOnly(Step(s, e), file)
  {
    if e.EComplete? && CompleteUpload(s, e.listing).Ok? {
      CompletionStoresTheFile(s, file, e.listing, page);
    }
  }

  /**
   The upload round trip. Whatever the order of calls, however often parts are retried, and whatever else
   happens in between: an object stored for this upload is the client's file, byte for byte, and whenever
   the upload waits for or undergoes ingestion, or is complete, that object is there, with its true size on record.
   */
  lemma {:induction false} RoundTrip(file: seq<byte>, s0: State, events: seq<Event>, page: nat)
    requires exists limit :: Initiate(|file|, limit, true, true) == Ok(s0)
    requires PossibleRun(s0, events, page) && PutsSlicesOf(file, events)
    ensures var s := Run(s0, events);
      && HoldsOnly(s, file)
      && (s.status == Queued || s.status == Processing || s.status == Complete ==> s.stored == Some(file) && s.fileRow == Some(|file|))
  {
    RunKeepsInv(s0, events, page);
    if events != [] {
      var last := |events| - 1;
      RunsShorten(s0, events, page);
      RoundTrip(file, s0, events[..last], page);
      RunKeepsInv(s0, events[..last], page);
      assert Possible(Run(s0, events[..last]), events[last], page);
      StepKeepsContent(Run(s0, events[..last]), events[last], file, page);
    }
  }

  /** The part numbers `1..n`. */
  function Numbers(n: nat): (r: set<nat>)
    ensures |r| == n && forall k :: k in r <==> 1 <= k <= n
  {
    if n == 0 then {} else Numbers(n - 1) + {n}
  }

  lemma SubsetsOfOneSize(a: set<nat>, b: set<nat>)
    requires a <= b
    ensures |a| <= |b|
    ensures |a| == |b| <==> a == b
  {
    assert b == a + (b - a);
    assert |b - a| == 0 ==> b - a == {};
  }

  /**
   Exactly when an upload can be finalised: it is still open, every part `1..total_parts` has arrived, and
   they all fit on the one page of parts that `list_parts` asks storage for.
   */
  lemma CompletionSucceedsExactly(s: State, listing: seq<Part>, page: nat)
    requires Inv(s) && IsListing(listing, s.session, page)
    ensures CompleteUpload(s, listing).Ok?
            <==> s.session.Some? && s.session.value.Keys == Numbers(s.totalParts) && s.totalParts <= page
  {
    if s.session.Some? {
      var arrived := s.session.value.Keys;
      assert arrived <= Numbers(s.totalParts);
      SubsetsOfOneSize(arrived, Numbers(s.totalParts));
      assert |arrived| == |s.session.value|;
    }
  }

  /**
   An upload of more parts than storage lists in one call never gets past INITIATED, unless it is cancelled:
   no run of calls, retries and events ever stores its object.
   */
  lemma {:induction false} OverlongUploadsNeverComplete(s0: State, events: seq<Event>, page: nat)
    requires Inv(s0) && s0.status == Initiated && s0.totalParts > page && PossibleRun(s0, events, page)
    ensures var s := Run(s0, events);
      && s.stored.None? && s.totalParts == s0.totalParts && s.task == Unsent
      && (s.status == Initiated || s.status == Cancelled) && Inv(s)
  {
    if events != [] {
      var last := |events| - 1;
      RunsShorten(s0, events, page);
      OverlongUploadsNeverComplete(s0, events[..last], page);
      assert Possible(Run(s0, events[..last]), events[last], page);
      StepStaysOverlong(Run(s0, events[..last]), events[last], page);
    }
  }

  lemma StepStaysOverlong(s: State, e: Event, page: nat)
    requires Inv(s) && Possible(s, e, page) && s.totalParts > page
    requires s.stored.None? && s.task == Unsent && (s.status == Initiated || s.status == Cancelled)
    ensures var after := Step(s, e);
      && Inv(after) && after.stored.None? && after.task == Unsent && after.totalParts == s.totalParts
      && (after.status == Initiated || after.status == Cancelled)
  {
    StepKeepsInv(s, e, page);
    if e.EComplete? { CompletionSucceedsExactly(s, e.listing, page); }
    hide Inv, IsListing;
  }

  /** With pages of 1000 parts the limit is met by a file the size limit may well admit: one byte more than 1000 parts hold. */
  lemma OnePartTooMany()
    ensures TotalParts(1000 * PART_SIZE_BYTES) == 1000 && TotalParts(1000 * PART_SIZE_BYTES + 1) == 1001
  {
  }

  function OneByte(content: byte): seq<Event> {
    [EPresign(1), EPut(1, [content]), EComplete([Part(1, [content])]), EStart, ECancel, EFinish]
  }

  /** The states a one-byte upload goes through up to its completion. */
  lemma OneByteArrives(content: byte)
    ensures var s0, events := Initiate(1, 1, true, true).value, OneByte(content);
      && Run(s0, events[..0]) == s0 && Run(s0, events[..2]).session == Some(map[1 := [content]])
      && var s := Run(s0, events[..3]); s.status == Queued && s.fileRow.Some? && s.task == Sent
  {
    var s0, events := Initiate(1, 1, true, true).value, OneByte(content);
    hide Sorted, DataOf, Flatten;
    assert TotalParts(1) == 1;
    hide TotalParts;
    RunStep(s0, events, 0);
    RunStep(s0, events, 1);
    RunStep(s0, events, 2);
    assert events[..0] == [];
    var s1 := s0.(presigned := {1});
    assert Step(s0, events[0]) == s1;
    assert Step(s1, events[1]) == s1.(session := Some(map[1 := [content]]));
  }

  /**
   A one-byte file, uploaded and queued, picked up by the worker, cancelled, and finished all the same:
   CANCELLED becomes COMPLETE.
   */
  lemma CancelledBecomesComplete(content: byte)
    ensures var s0, events := Initiate(1, 1, true, true).value, OneByte(content);
      PossibleRun(s0, events, 1) && Run(s0, events[..5]).status == Cancelled && Run(s0, events[..6]).status == Complete
  {
    var s0, events := Initiate(1, 1, true, true).value, OneByte(content);
    OneByteArrives(content);
    OneByteEnds(s0, events);
    hide Run, Step, CompleteUpload, CancelUpload, Initiate;
    forall i | 0 <= i < |events| ensures Possible(Run(s0, events[..i]), events[i], 1) {
      if i == 2 { assert IsListing([Part(1, [content])], Some(map[1 := [content]]), 1); }
    }
  }

  lemma OneByteEnds(s0: State, events: seq<Event>)
    requires |events| == 6 && events[3] == EStart && events[4] == ECancel && events[5] == EFinish
    requires var s := Run(s0, events[..3]); s.status == Queued && s.fileRow.Some? && s.task == Sent
    ensures Run(s0, events[..5]).status == Cancelled && Run(s0, events[..6]).status == Complete
  {
    RunStep(s0, events, 3);
    RunStep(s0, events, 4);
    RunStep(s0, events, 5);
    hide Run;
  }

  lemma RunStep(s: State, events: seq<Event>, i: nat)
    requires i < |events|
    ensures Run(s, events[..i + 1]) == Step(Run(s, events[..i]), events[i])
  {
    assert events[..i + 1][..i] == events[..i];
  }

  // ---------------------------------------------------------------- the row and the calls that update it

  /** What the caller is told. */
  function Outcome(r: Result<State, Error>): Result<(), Error> {
    if r.Ok? then Ok(()) else Err(r.error)
  }

  /** The upload of `file` with parts `1..k` in storage, and nothing else done. */
  ghost predicate PartsSent(s: State, file: seq<byte>, k: nat)
    requires k <= TotalParts(|file|)
  {
    && s.session.Some? && s.session.value.Keys == Numbers(k)
    && (forall n :: 1 <= n <= k ==> s.session.value[n] == Slice(file, n))
    && s == State(Initiated, |file|, TotalParts(|file|), s.uploadedBytes, false, s.presigned, s.session, None, None, 0, Unsent)
    && s.uploadedBytes == (if k == 0 then 0 else End(file, k)) <= |file|
  }

  lemma OneMoreSent(s: State, file: seq<byte>, k: nat)
    requires k < TotalParts(|file|) && file != [] && PartsSent(s, file, k)
    ensures var data := Slice(file, k + 1);
      var after := s.(presigned := s.presigned + {k + 1}, session := Some(s.session.value[k + 1 := data]),
                      uploadedBytes := Min(s.uploadedBytes + |data|, |file|));
      PartsSent(after, file, k + 1) && after.uploadedBytes == s.uploadedBytes + |data|
  {
    hide TotalParts, Slice, End, Numbers;
    NextEnd(file, k + 1);
    var data := Slice(file, k + 1);
    var more := s.session.value[k + 1 := data];
    assert more.Keys == Numbers(k + 1);
    assert forall n :: 1 <= n <= k + 1 ==> more[n] == Slice(file, n);
  }

  /** An upload row together with the storage session, object, file row and records that belong to it. */
  class UploadRecord {
    var status: Status
    var totalSizeBytes: nat
    var totalParts: nat
    var uploadedBytes: int
    var linked: bool
    var presigned: set<nat>
    var session: Option<map<nat, seq<byte>>>
    var stored: Option<seq<byte>>
    var fileRow: Option<nat>
    var records: nat
    var task: Task

    ghost function View(): State
      reads this
    {
      State(status, totalSizeBytes, totalParts, uploadedBytes, linked, presigned, session, stored, fileRow, records, task)
    }

    ghost predicate Valid()
      reads this
    {
      Inv(View())
    }

    /** The upload row as `initiate_multipart_upload` inserts it: sound, and holding nothing of any file of that size. */
    constructor (size: nat)
      requires size > 0
      ensures Valid() && status == Initiated && totalSizeBytes == size
      ensures forall file: seq<byte> :: |file| == size ==> HoldsOnly(View(), file) && PartsSent(View(), file, 0)
    {
      status, totalSizeBytes, totalParts, uploadedBytes := Initiated, size, TotalParts(size), 0;
      linked, presigned, session, stored := false, {}, Some(map[]), None;
      fileRow, records, task := None, 0, Unsent;
      new;
      hide TotalParts;
    }

    /** URLs are handed out while the upload is open, and for its own part numbers only. */
    method PresignPart(partNumber: int) returns (r: Result<(), Error>)
      requires Valid()
      modifies this
      ensures Valid()
      ensures r.Ok? <==> old(status) == Initiated && 1 <= partNumber <= totalParts
      ensures r.Ok? ==> partNumber in presigned
      ensures forall n :: n in presigned ==> 1 <= n <= totalParts
      ensures r == Outcome(Presign(old(View()), partNumber))
      ensures View() == Kept(old(View()), Presign(old(View()), partNumber))
    {
      if status != Initiated { return Err(WrongStatus(status)); }
      if !(1 <= partNumber <= totalParts) { return Err(PartOutOfRange); }
      presigned := presigned + {partNumber};
      return Ok(());
    }

    /** A slice of the file, put in its place any number of times, leaves storage holding nothing but slices of the file. */
    method PutPart(partNumber: nat, data: seq<byte>)
      requires Valid()
      modifies this
      ensures Valid()
      ensures forall file ::
        HoldsOnly(old(View()), file) && 1 <= partNumber <= TotalParts(|file|) && data == Slice(file, partNumber) ==> HoldsOnly(View(), file)
      ensures View() == Put(old(View()), partNumber, data)
    {
      hide TotalParts, Slice;
      if session.Some? && partNumber in presigned {
        session := Some(session.value[partNumber := data]);
      }
    }

    /** Reported progress never falls and never passes the size of the file. */
    method MarkPartUploaded(size: int) returns (r: Result<(), Error>)
      requires Valid() && size > 0
      modifies this
      ensures Valid()
      ensures r.Ok? <==> old(status) == Initiated
      ensures old(uploadedBytes) <= uploadedBytes <= totalSizeBytes
      ensures uploadedBytes == if r.Err? then old(uploadedBytes)
                               else if old(uploadedBytes) + size <= totalSizeBytes then old(uploadedBytes) + size else totalSizeBytes
      ensures r == Outcome(MarkPart(old(View()), size))
      ensures View() == Kept(old(View()), MarkPart(old(View()), size))
    {
      if status != Initiated { return Err(WrongStatus(status)); }
      uploadedBytes := Min(uploadedBytes + size, if totalSizeBytes != 0 then totalSizeBytes else size);
      return Ok(());
    }

    /**
     Succeeds exactly if every part has arrived and one page lists them all; and then what is stored is the
     file whose slices were put.
     */
    method CompleteMultipartUpload(realParts: seq<Part>, ghost page: nat) returns (r: Result<(), Error>)
      requires Valid() && IsListing(realParts, session, page)
      modifies this
      ensures Valid()
      ensures r.Ok? <==> old(session).Some? && old(session).value.Keys == Numbers(totalParts) && totalParts <= page
      ensures r.Ok? ==> forall file :: HoldsOnly(old(View()), file) ==> stored == Some(file) && fileRow == Some(|file|)
      ensures r == Outcome(CompleteUpload(old(View()), realParts))
      ensures View() == Kept(old(View()), CompleteUpload(old(View()), realParts))
    {
      hide HoldsOnly, IsListing, Inv, Sorted, DataOf, Flatten, Numbers;
      CompletionSucceedsExactly(View(), realParts, page);
      CompletionKeepsAll(View(), realParts, page);
      if status != Initiated { return Err(WrongStatus(status)); }
      if |realParts| != totalParts { return Err(PartsMissing(totalParts, |realParts|)); }
      var whole := Flatten(DataOf(Sorted(realParts)));
      session, stored := None, Some(whole);
      fileRow := Some(|whole|);
      status := Queued;
      if totalSizeBytes != 0 { uploadedBytes := totalSizeBytes; }
      linked := true;
      task := Sent;
      return Ok(());
    }

    /** Refused in terminal statuses only; before ingestion has started it leaves nothing behind. */
    method Cancel() returns (r: Result<(), Error>)
      modifies this
      ensures old(Valid()) ==> Valid()
      ensures r.Ok? <==> !old(status).Terminal()
      ensures r.Ok? ==> status == Cancelled
      ensures old(Valid()) && (old(status) == Initiated || old(status) == Queued) ==> Clean(View())
      ensures r == Outcome(CancelUpload(old(View())))
      ensures View() == Kept(old(View()), CancelUpload(old(View())))
    {
      if status == Initiated {
        session := None;
        status := Cancelled;
      } else if status == Queued {
        if linked {
          if fileRow.Some? {
            stored := None;
            records := 0;
            fileRow := None;
          }
        } else {
          stored := None;
        }
        linked := false;
        status := Cancelled;
      } else if status == Processing {
        status := Cancelled;
      } else {
        return Err(WrongStatus(status));
      }
      return Ok(());
    }

    // -------------------------------------------------------------- the browser's part loop

    /** Storage's answer to one `list_parts` call on a session whose parts are `1..n`: its first page. */
    method ListParts(n: nat, page: nat) returns (listing: seq<Part>)
      requires session.Some? && session.value.Keys == Numbers(n)
      ensures IsListing(listing, session, page)
    {
      listing := [];
      assert |session.value| == |session.value.Keys|;
      var last := Min(n, page);
      for i := 1 to last + 1
        invariant |listing| == i - 1
        invariant forall k :: 0 <= k < |listing| ==>
          listing[k].number == k + 1 && listing[k].number in session.value && listing[k].data == session.value[k + 1]
      {
        listing := listing + [Part(i, session.value[i])];
      }
    }

    /** One turn of the browser's loop: presign, PUT, report. */
    method SendPart(file: seq<byte>, partNumber: nat) returns (size: nat)
      requires Valid() && status == Initiated && totalSizeBytes == |file|
      requires 1 <= partNumber <= totalParts == TotalParts(|file|)
      modifies this
      ensures Valid()
      ensures size == |Slice(file, partNumber)|
      ensures View() == old(View()).(
                          presigned := old(presigned) + {partNumber},
                          session := Some(old(session).value[partNumber := Slice(file, partNumber)]),
                          uploadedBytes := Min(old(uploadedBytes) + |Slice(file, partNumber)|,
                                               if |file| != 0 then |file| else |Slice(file, partNumber)|))
    {
      assert |Slice(file, partNumber)| > 0 by { SliceEnds(|file|, partNumber); }
      hide TotalParts, Slice;
      var blob := Slice(file, partNumber);
      var presign := PresignPart(partNumber);
      assert presign.Ok?;
      PutPart(partNumber, blob);
      var marked := MarkPartUploaded(|blob|);
      assert marked.Ok?;
      size := |blob|;
    }

    ghost predicate HasSent(file: seq<byte>, k: nat)
      reads this
      requires k <= TotalParts(|file|)
    {
      PartsSent(View(), file, k)
    }

    lemma Fresh(file: seq<byte>)
      requires HasSent(file, 0)
      ensures totalParts == TotalParts(|file|) && uploadedBytes == 0
    {
    }

    lemma StillOpen(file: seq<byte>, k: nat)
      requires k <= TotalParts(|file|) && HasSent(file, k)
      ensures status == Initiated && stored == None && fileRow == None && uploadedBytes <= |file|
      ensures k == TotalParts(|file|) ==> uploadedBytes == |file|
    {
      LastEnd(file);
    }

    method SendNextPart(file: seq<byte>, k: nat) returns (size: nat)
      requires k < TotalParts(|file|) && Valid() && HasSent(file, k) && file != []
      modifies this
      ensures Valid() && HasSent(file, k + 1) && uploadedBytes == old(uploadedBytes) + size
    {
      assert totalParts == TotalParts(|file|) && status == Initiated && session.Some? && totalSizeBytes == |file|;
      OneMoreSent(View(), file, k);
      hide TotalParts, Slice, End, PartsSent, Inv;
      size := SendPart(file, k + 1);
    }

    method Finalize(file: seq<byte>, page: nat) returns (completed: bool)
      requires file != [] && Valid() && HasSent(file, TotalParts(|file|))
      modifies this
      ensures Valid() && uploadedBytes == |file|
      ensures completed <==> TotalParts(|file|) <= page
      ensures completed ==> status == Queued && stored == Some(file) && fileRow == Some(|file|)
      ensures !completed ==> status == Initiated && stored == None && fileRow == None
    {
      StillOpen(file, TotalParts(|file|));
      AllSentHoldsOnly(View(), file);
      assert totalParts == TotalParts(|file|) && session.Some? && session.value.Keys == Numbers(totalParts);
      hide TotalParts, Slice, End, Flatten, Sorted, DataOf, PartsSent, HoldsOnly, Inv;
      var listing := ListParts(totalParts, page);
      var r := CompleteMultipartUpload(listing, page);
      completed := r.Ok?;
    }

    /**
     `runLargeFileUpload` on a fresh upload of `file`. `aborted[i]` is the abort flag as the loop reads it for
     the `i`-th time, and `page` the number of parts storage lists in one call. The object stored is the file,
     and the progress figures end at its size, exactly if the loop is not aborted and the parts fit on one
     page; otherwise the upload is still open and nothing is stored.
     */
    method RunLargeFileUpload(file: seq<byte>, aborted: seq<bool>, page: nat) returns (finished: bool, bytesDone: nat)
      requires file != [] && |aborted| == TotalParts(|file|) + 1
      requires Valid() && HasSent(file, 0)
      modifies this
      ensures Valid()
      ensures finished <==> true !in aborted && TotalParts(|file|) <= page
      ensures bytesDone == uploadedBytes <= |file|
      ensures finished ==> bytesDone == |file| && status == Queued && stored == Some(file) && fileRow == Some(|file|)
      ensures !finished ==> status == Initiated && stored == None && fileRow == None
    {
      hide TotalParts, Slice, End, PartsSent, Inv;
      var stopped;
      stopped, bytesDone := SendParts(file, aborted);
      StillOpen(file, stopped);
      if aborted[stopped] { return false, bytesDone; }
      assert aborted == aborted[..stopped] + [aborted[stopped]];
      finished := Finalize(file, page);
    }

    /** The loop over part numbers, up to the first turn that finds the abort flag set. */
    method SendParts(file: seq<byte>, aborted: seq<bool>) returns (sent: nat, bytesDone: nat)
      requires file != [] && |aborted| == TotalParts(|file|) + 1
      requires Valid() && HasSent(file, 0)
      modifies this
      ensures Valid() && sent <= TotalParts(|file|) && HasSent(file, sent) && bytesDone == uploadedBytes
      ensures true !in aborted[..sent] && (sent < TotalParts(|file|) ==> aborted[sent])
    {
      hide TotalParts, Slice, End, HasSent, Valid, Numbers;
      Fresh(file);
      sent, bytesDone := 0, 0;
      var total := totalParts;
      while sent < total
        invariant sent <= total == TotalParts(|file|)
        invariant Valid() && HasSent(file, sent) && bytesDone == uploadedBytes
        invariant true !in aborted[..sent]
      {
        if aborted[sent] { return; }
        var size := SendNextPart(file, sent);
        bytesDone := bytesDone + size;
        sent := sent + 1;
      }
    }
  }

  lemma CompletionKeepsAll(s: State, listing: seq<Part>, page: nat)
    requires Inv(s) && IsListing(listing, s.session, page)
    ensures Inv(Kept(s, CompleteUpload(s, listing)))
    ensures CompleteUpload(s, listing).Ok? ==>
      forall file :: HoldsOnly(s, file) ==>
        CompleteUpload(s, listing).value.stored == Some(file) && CompleteUpload(s, listing).value.fileRow == Some(|file|)
  {
    StepKeepsInv(s, EComplete(listing), page);
    if CompleteUpload(s, listing).Ok? {
      forall file | HoldsOnly(s, file)
        ensures CompleteUpload(s, listing).value.stored == Some(file) && CompleteUpload(s, listing).value.fileRow == Some(|file|)
      {
        CompletionStoresTheFile(s, file, listing, page);
      }
    }
  }

  lemma AllSentHoldsOnly(s: State, file: seq<byte>)
    requires PartsSent(s, file, TotalParts(|file|))
    ensures HoldsOnly(s, file)
  {
    hide TotalParts, Slice;
  }

  lemma NextEnd(file: seq<byte>, n: nat)
    requires 1 <= n <= TotalParts(|file|)
    ensures (if n == 1 then 0 else End(file, n - 1)) + |Slice(file, n)| == End(file, n) <= |file|
  {
    SliceEnds(|file|, n);
    if n > 1 { SliceEnds(|file|, n - 1); }
  }

  lemma LastEnd(file: seq<byte>)
    ensures End(file, TotalParts(|file|)) == |file|
  {
    SliceEnds(|file|, TotalParts(|file|));
  }
}
