/**
 The coverage snapshot a request carries, and the flag that says it may be out of date.

 `create_request` reads the dataset's version with its first query and then counts with many more, and
 ingestion may commit between any two of them. A schedule says what is committed before each query.
 */
module Coverage {
  import opened Outcomes

  type FileId = nat

  datatype StorageKind = RowRecords | Parquet | ChunkedArray | Raster

  datatype File<R> = File(kind: StorageKind, cells: seq<R>)

  /** SQL rows, and the dataset's files in the order a listing returns them. */
  datatype Contents<R> = Contents(rows: seq<R>, listing: seq<FileId>, files: map<FileId, File<R>>) {
    predicate Valid() {
      forall i :: 0 <= i < |listing| ==> listing[i] in files
    }
  }

  datatype Dataset<R> = Dataset(published: bool, version: nat, contents: Contents<R>)

  datatype Snapshot = Snapshot(matching: nat, total: nat, version: nat)

  datatype Tally = Tally(matching: nat, total: nat)

  datatype Error = NotFound | FileGone(file: FileId)

  // ---------------------------------------------------------------- commits

  function NextVersion(version: nat): nat {
    (if version == 0 then 1 else version) + 1
  }

  /** An ingestion commits new contents and the next version in one transaction. */
  function Commit<R>(d: Dataset<R>, contents: Contents<R>): Dataset<R> {
    d.(contents := contents, version := NextVersion(d.version))
  }

  function After<R>(d: Dataset<R>, commits: seq<Contents<R>>): Dataset<R> {
    if commits == [] then d else Commit(After(d, commits[..|commits| - 1]), commits[|commits| - 1])
  }

  lemma {:induction false} EveryCommitShows<R>(d: Dataset<R>, commits: seq<Contents<R>>)
    ensures After(d, commits).version >= d.version + |commits|
    ensures d.version >= 1 ==> After(d, commits).version == d.version + |commits|
    ensures commits != [] ==> After(d, commits).contents == commits[|commits| - 1]
    ensures After(d, commits).published == d.published
  {
    if commits != [] {
      EveryCommitShows(d, commits[..|commits| - 1]);
    }
  }

  type Schedule<!R> = nat -> seq<Contents<R>>

  /** The committed state that query `k` sees: everything committed before it, nothing after. */
  function Seen<R>(d: Dataset<R>, schedule: Schedule<R>, k: nat): Dataset<R> {
    After(if k == 0 then d else Seen(d, schedule, k - 1), schedule(k))
  }

  /** No commit falls between query `j` and query `k`. */
  predicate Quiet<R>(schedule: Schedule<R>, j: nat, k: nat) {
    forall i :: j < i <= k ==> schedule(i) == []
  }

  lemma {:induction false} QuietExactlyIfSameVersion<R>(d: Dataset<R>, schedule: Schedule<R>, j: nat, k: nat)
    requires j <= k
    ensures Seen(d, schedule, k).version >= Seen(d, schedule, j).version
    ensures Seen(d, schedule, k).version == Seen(d, schedule, j).version <==> Quiet(schedule, j, k)
    ensures Quiet(schedule, j, k) ==> Seen(d, schedule, k) == Seen(d, schedule, j)
  {
    if j < k {
      QuietExactlyIfSameVersion(d, schedule, j, k - 1);
      EveryCommitShows(Seen(d, schedule, k - 1), schedule(k));
      assert Quiet(schedule, j, k) <==> Quiet(schedule, j, k - 1) && schedule(k) == [];
    }
  }

  // ---------------------------------------------------------------- what the contents count to

  function Matches<R>(matches: R -> bool, records: seq<R>): (n: nat)
    ensures n <= |records|
  {
    if records == [] then 0
    else Matches(matches, records[..|records| - 1]) + if matches(records[|records| - 1]) then 1 else 0
  }

  predicate Additive(kind: StorageKind) {
    kind == Parquet || kind == ChunkedArray
  }

  function FileRecords<R>(files: map<FileId, File<R>>, f: FileId): seq<R> {
    if f in files && Additive(files[f].kind) then files[f].cells else []
  }

  /** All the records a listing of files holds, end to end. */
  function Pooled<R>(files: map<FileId, File<R>>, listing: seq<FileId>): seq<R> {
    if listing == [] then []
    else Pooled(files, listing[..|listing| - 1]) + FileRecords(files, listing[|listing| - 1])
  }

  /** The dataset's records, wherever they are stored. */
  function Records<R>(c: Contents<R>): seq<R> {
    c.rows + Pooled(c.files, c.listing)
  }

  lemma {:induction false} MatchesAdd<R>(matches: R -> bool, a: seq<R>, b: seq<R>)
    ensures Matches(matches, a + b) == Matches(matches, a) + Matches(matches, b)
  {
    if b == [] {
      assert a + b == a;
    } else {
      var most := b[..|b| - 1];
      MatchesAdd(matches, a, most);
      assert (a + b)[..|a + b| - 1] == a + most;
    }
  }

  /** The count is the number of records that match. */
  lemma {:induction false} MatchesCounts<R>(matches: R -> bool, records: seq<R>)
    ensures Matches(matches, records) == |set i | 0 <= i < |records| && matches(records[i])|
  {
    if records != [] {
      var n := |records| - 1;
      MatchesCounts(matches, records[..n]);
      var before := set i | 0 <= i < n && matches(records[..n][i]);
      var all := set i | 0 <= i < |records| && matches(records[i]);
      assert all == before + if matches(records[n]) then {n} else {};
    }
  }

  /** A dataset's records are its SQL rows and what its Parquet and chunked files hold; no other file counts. */
  lemma {:induction false} PooledAre<R>(files: map<FileId, File<R>>, listing: seq<FileId>, x: R)
    ensures x in Pooled(files, listing) <==>
      exists i :: 0 <= i < |listing| && listing[i] in files
        && (files[listing[i]].kind == Parquet || files[listing[i]].kind == ChunkedArray) && x in files[listing[i]].cells
  {
    if listing != [] {
      PooledAre(files, listing[..|listing| - 1], x);
      hide Pooled;
      assert Pooled(files, listing) == Pooled(files, listing[..|listing| - 1]) + FileRecords(files, listing[|listing| - 1]) by { PooledEnds(files, listing); }
    }
  }

  lemma PooledEnds<R>(files: map<FileId, File<R>>, listing: seq<FileId>)
    requires listing != []
    ensures Pooled(files, listing) == Pooled(files, listing[..|listing| - 1]) + FileRecords(files, listing[|listing| - 1])
  {
  }

  // ---------------------------------------------------------------- the many-query count

  function OfKind<R>(c: Contents<R>, listing: seq<FileId>, kind: StorageKind): (ids: seq<FileId>) {
    if listing == [] then []
    else
      var f := listing[|listing| - 1];
      OfKind(c, listing[..|listing| - 1], kind) + if f in c.files && c.files[f].kind == kind then [f] else []
  }

  /** The files counted on top of the SQL rows: PARQUET ones first, then CHUNKED_ARRAY. */
  function Targets<R>(c: Contents<R>): seq<FileId> {
    OfKind(c, c.listing, Parquet) + OfKind(c, c.listing, ChunkedArray)
  }

  function CountOne<R>(files: map<FileId, File<R>>, matches: R -> bool, f: FileId): Result<Tally, Error> {
    if f !in files then Err(FileGone(f)) else Ok(Tally(Matches(matches, files[f].cells), |files[f].cells|))
  }

  /** The first file takes query 4, and each file is read when its turn comes. */
  function CountFiles<R>(d: Dataset<R>, matches: R -> bool, schedule: Schedule<R>, targets: seq<FileId>): Result<Tally, Error> {
    if targets == [] then Ok(Tally(0, 0))
    else
      var sofar := CountFiles(d, matches, schedule, targets[..|targets| - 1]);
      var f := targets[|targets| - 1];
      var files := Seen(d, schedule, 3 + |targets|).contents.files;
      if sofar.Err? then sofar
      else
        var more := CountOne(files, matches, f);
        if more.Err? then more
        else Ok(Tally(sofar.value.matching + more.value.matching, sofar.value.total + more.value.total))
  }

  function Counted<R>(d: Dataset<R>, matches: R -> bool, schedule: Schedule<R>): Result<Snapshot, Error> {
    if !Seen(d, schedule, 0).published then Err(NotFound)
    else
      var fromFiles := CountFiles(d, matches, schedule, Targets(Seen(d, schedule, 3).contents));
      if fromFiles.Err? then Err(fromFiles.error)
      else
        Ok(Snapshot(
          Matches(matches, Seen(d, schedule, 1).contents.rows) + fromFiles.value.matching,
          |Seen(d, schedule, 2).contents.rows| + fromFiles.value.total,
          Seen(d, schedule, 0).version))
  }

  /** The number of the last query. */
  function LastQuery<R>(d: Dataset<R>, schedule: Schedule<R>): nat {
    3 + |Targets(Seen(d, schedule, 3).contents)|
  }

  lemma {:induction false} PooledAdds<R>(matches: R -> bool, c: Contents<R>, listing: seq<FileId>)
    ensures Matches(matches, Pooled(c.files, listing))
         == Matches(matches, Pooled(c.files, OfKind(c, listing, Parquet))) + Matches(matches, Pooled(c.files, OfKind(c, listing, ChunkedArray)))
    ensures |Pooled(c.files, listing)| == |Pooled(c.files, OfKind(c, listing, Parquet))| + |Pooled(c.files, OfKind(c, listing, ChunkedArray))|
  {
    if listing == [] {
    } else {
      var most, f := listing[..|listing| - 1], listing[|listing| - 1];
      assert listing == most + [f];
      assert Pooled(c.files, listing) == Pooled(c.files, most) + FileRecords(c.files, f);
      assert FileRecords(c.files, f) == MoreOfKind(c, f, Parquet) + MoreOfKind(c, f, ChunkedArray);
      hide Pooled, OfKind, Matches, FileRecords, MoreOfKind;
      PooledAdds(matches, c, most);
      MatchesAdd(matches, Pooled(c.files, most), FileRecords(c.files, f));
      MatchesAdd(matches, MoreOfKind(c, f, Parquet), MoreOfKind(c, f, ChunkedArray));
      OneMoreOfKind(matches, c, most, f, Parquet);
      OneMoreOfKind(matches, c, most, f, ChunkedArray);
    }
  }

  /** What `f` adds to the pass over files of one kind. */
  function MoreOfKind<R>(c: Contents<R>, f: FileId, kind: StorageKind): seq<R> {
    if f in c.files && c.files[f].kind == kind then FileRecords(c.files, f) else []
  }

  lemma OneMoreOfKind<R>(matches: R -> bool, c: Contents<R>, most: seq<FileId>, f: FileId, kind: StorageKind)
    ensures var before, now := Pooled(c.files, OfKind(c, most, kind)), Pooled(c.files, OfKind(c, most + [f], kind));
      && Matches(matches, now) == Matches(matches, before) + Matches(matches, MoreOfKind(c, f, kind))
      && |now| == |before| + |MoreOfKind(c, f, kind)|
  {
    var all := most + [f];
    assert all[..|all| - 1] == most;
    var ids := OfKind(c, most, kind);
    assert OfKind(c, all, kind) == ids + if f in c.files && c.files[f].kind == kind then [f] else [];
    hide OfKind;
    if f in c.files && c.files[f].kind == kind {
      assert (ids + [f])[..|ids|] == ids;
      assert Pooled(c.files, ids + [f]) == Pooled(c.files, ids) + FileRecords(c.files, f);
    } else {
      assert ids + [] == ids;
      assert Pooled(c.files, ids) + MoreOfKind(c, f, kind) == Pooled(c.files, ids);
    }
    MatchesAdd(matches, Pooled(c.files, ids), MoreOfKind(c, f, kind));
    hide Pooled, Matches, FileRecords;
  }

  lemma {:induction false} PooledConcat<R>(files: map<FileId, File<R>>, a: seq<FileId>, b: seq<FileId>)
    ensures Pooled(files, a + b) == Pooled(files, a) + Pooled(files, b)
  {
    hide FileRecords;
    if b == [] {
      assert a + b == a;
    } else {
      var most, last := b[..|b| - 1], b[|b| - 1];
      PooledConcat(files, a, most);
      assert (a + b)[..|a + b| - 1] == a + most && (a + b)[|a + b| - 1] == last;
      Regroup(Pooled(files, a), Pooled(files, most), FileRecords(files, last));
    }
  }

  lemma Regroup<R>(a: seq<R>, b: seq<R>, c: seq<R>)
    ensures (a + b) + c == a + (b + c)
  {
  }

  lemma {:induction false} OfKindIsOfKind<R>(c: Contents<R>, listing: seq<FileId>, kind: StorageKind)
    ensures forall i :: 0 <= i < |OfKind(c, listing, kind)| ==>
      OfKind(c, listing, kind)[i] in c.files && c.files[OfKind(c, listing, kind)[i]].kind == kind
  {
    if listing != [] { OfKindIsOfKind(c, listing[..|listing| - 1], kind); }
  }

  lemma NoMatchesInNothing<R>(matches: R -> bool)
    ensures Matches(matches, []) == 0
  {
  }

  lemma {:induction false} QuietFileCount<R>(d: Dataset<R>, matches: R -> bool, schedule: Schedule<R>, targets: seq<FileId>, c: Contents<R>)
    requires forall k :: 3 <= k <= 3 + |targets| ==> Seen(d, schedule, k).contents == c
    requires forall i :: 0 <= i < |targets| ==> targets[i] in c.files && Additive(c.files[targets[i]].kind)
    ensures CountFiles(d, matches, schedule, targets)
         == Ok(Tally(Matches(matches, Pooled(c.files, targets)), |Pooled(c.files, targets)|))
  {
    hide Seen, Matches;
    if targets == [] {
      NoMatchesInNothing(matches);
    } else {
      var most, f := targets[..|targets| - 1], targets[|targets| - 1];
      QuietFileCount(d, matches, schedule, most, c);
      assert Seen(d, schedule, 3 + |targets|).contents == c;
      MatchesAdd(matches, Pooled(c.files, most), c.files[f].cells);
      assert FileRecords(c.files, f) == c.files[f].cells;
    }
  }

  /** The SQL rows and the two passes over files count every record of the dataset once, and nothing else. */
  lemma TargetsCoverTheFiles<R>(matches: R -> bool, c: Contents<R>)
    ensures Matches(matches, c.rows) + Matches(matches, Pooled(c.files, Targets(c))) == Matches(matches, Records(c))
    ensures |c.rows| + |Pooled(c.files, Targets(c))| == |Records(c)|
  {
    var parquet, chunked := OfKind(c, c.listing, Parquet), OfKind(c, c.listing, ChunkedArray);
    PooledConcat(c.files, parquet, chunked);
    MatchesAdd(matches, Pooled(c.files, parquet), Pooled(c.files, chunked));
    PooledAdds(matches, c, c.listing);
    MatchesAdd(matches, c.rows, Pooled(c.files, c.listing));
    hide OfKind, Pooled, Matches;
  }

  /** With nothing committed while counting, the many queries together count the dataset once over. */
  lemma QuietCount<R>(d: Dataset<R>, matches: R -> bool, schedule: Schedule<R>)
    requires Seen(d, schedule, 0).published && Quiet(schedule, 0, LastQuery(d, schedule))
    ensures var now := Seen(d, schedule, 0);
      Counted(d, matches, schedule)
      == Ok(Snapshot(Matches(matches, Records(now.contents)), |Records(now.contents)|, now.version))
  {
    hide Seen, OfKind, Pooled, Matches, Records, CountFiles;
    var c := Seen(d, schedule, 0).contents;
    forall k: nat | k <= LastQuery(d, schedule) ensures Seen(d, schedule, k).contents == c {
      QuietExactlyIfSameVersion(d, schedule, 0, k);
    }
    OfKindIsOfKind(c, c.listing, Parquet);
    OfKindIsOfKind(c, c.listing, ChunkedArray);
    QuietFileCount(d, matches, schedule, Targets(c), c);
    TargetsCoverTheFiles(matches, c);
  }

  // ---------------------------------------------------------------- staleness

  /** `read_request_coverage_snapshot`: a row from before versions were recorded is never flagged. */
  predicate IsStale<R>(version: Option<nat>, current: Dataset<R>) {
    version.Some? && version.value != current.version
  }

  /**
   The flag is exact about commits and sound about counts, for every interleaving. A snapshot is flagged
   exactly if something was committed after the dataset row was read, during the count or since; and if it
   is not flagged, its numbers are the counts of what the dataset holds now.
   */
  lemma UnflaggedSnapshotsAreCurrent<R>(d: Dataset<R>, matches: R -> bool, schedule: Schedule<R>, later: seq<Contents<R>>)
    requires Counted(d, matches, schedule).Ok?
    ensures var s := Counted(d, matches, schedule).value;
      var last := LastQuery(d, schedule);
      var current := After(Seen(d, schedule, last), later);
      && (IsStale(Some(s.version), current) <==> !Quiet(schedule, 0, last) || later != [])
      && (!IsStale(Some(s.version), current) ==>
           s.matching == Matches(matches, Records(current.contents)) && s.total == |Records(current.contents)|)
  {
    var last := LastQuery(d, schedule);
    QuietExactlyIfSameVersion(d, schedule, 0, last);
    EveryCommitShows(Seen(d, schedule, last), later);
    if Quiet(schedule, 0, last) { QuietCount(d, matches, schedule); }
  }

  lemma {:induction false} FilesMatchAtMostWhatTheyHold<R>(d: Dataset<R>, matches: R -> bool, schedule: Schedule<R>, targets: seq<FileId>)
    requires CountFiles(d, matches, schedule, targets).Ok?
    ensures var n := CountFiles(d, matches, schedule, targets).value; n.matching <= n.total
  {
    if targets != [] { FilesMatchAtMostWhatTheyHold(d, matches, schedule, targets[..|targets| - 1]); }
  }

  /** Even a stale snapshot never claims more than the whole, unless SQL rows went away between two queries. */
  lemma MatchingWithinTotal<R>(d: Dataset<R>, matches: R -> bool, schedule: Schedule<R>)
    requires Counted(d, matches, schedule).Ok?
    requires |Seen(d, schedule, 1).contents.rows| <= |Seen(d, schedule, 2).contents.rows|
    ensures Counted(d, matches, schedule).value.matching <= Counted(d, matches, schedule).value.total
  {
    FilesMatchAtMostWhatTheyHold(d, matches, schedule, Targets(Seen(d, schedule, 3).contents));
  }

  // ---------------------------------------------------------------- as it runs

  class Catalogue<R> {
    var dataset: Dataset<R>

    constructor (contents: Contents<R>)
      ensures dataset == Dataset(true, 1, contents)
    {
      dataset := Dataset(true, 1, contents);
    }

    /** Other transactions commit while this one waits for its next query. */
    method LetCommit(commits: seq<Contents<R>>)
      modifies this
      ensures dataset == After(old(dataset), commits)
    {
      for i := 0 to |commits|
        invariant dataset == After(old(dataset), commits[..i])
      {
        assert commits[..i + 1][..i] == commits[..i];
        dataset := Commit(dataset, commits[i]);
      }
      assert commits[..|commits|] == commits;
    }

    /** One file's pair of counts, read in one call. */
    method CountFile(matches: R -> bool, f: FileId) returns (r: Result<Tally, Error>)
      ensures r == CountOne(dataset.contents.files, matches, f)
    {
      if f !in dataset.contents.files { return Err(FileGone(f)); }
      var cells := dataset.contents.files[f].cells;
      return Ok(Tally(Matches(matches, cells), |cells|));
    }

    method CountTargets(matches: R -> bool, schedule: Schedule<R>, targets: seq<FileId>, ghost start: Dataset<R>) returns (r: Result<Tally, Error>)
      requires dataset == Seen(start, schedule, 3)
      modifies this
      ensures r == CountFiles(start, matches, schedule, targets)
      ensures r.Ok? ==> dataset == Seen(start, schedule, 3 + |targets|)
    {
      var matching: nat, total: nat := 0, 0;
      for i := 0 to |targets|
        invariant dataset == Seen(start, schedule, 3 + i)
        invariant CountFiles(start, matches, schedule, targets[..i]) == Ok(Tally(matching, total))
      {
        LetCommit(schedule(4 + i));
        assert dataset == Seen(start, schedule, 4 + i);
        OneMoreFile(start, matches, schedule, targets, i);
        hide Seen, CountFiles, CountOne;
        var counts := CountFile(matches, targets[i]);
        if counts.Err? {
          FailsAtOnce(start, matches, schedule, targets, i + 1);
          return counts;
        }
        matching, total := matching + counts.value.matching, total + counts.value.total;
      }
      assert targets[..|targets|] == targets;
      r := Ok(Tally(matching, total));
    }

    /** Counts what the dataset holds while it changes, and stamps the result with the version it started from. */
    method CountCoverage(matches: R -> bool, schedule: Schedule<R>) returns (r: Result<Snapshot, Error>)
      modifies this
      ensures r == Counted(old(dataset), matches, schedule)
      ensures r.Ok? ==> dataset == Seen(old(dataset), schedule, LastQuery(old(dataset), schedule))
    {
      hide Targets, CountFiles, Matches;
      LetCommit(schedule(0));
      if !dataset.published { return Err(NotFound); }
      var version := dataset.version;
      LetCommit(schedule(1));
      var matching := Matches(matches, dataset.contents.rows);
      LetCommit(schedule(2));
      var total := |dataset.contents.rows|;
      LetCommit(schedule(3));
      assert dataset == Seen(old(dataset), schedule, 3) by { ThirdQuery(old(dataset), schedule); }
      var targets := Targets(dataset.contents);
      var fromFiles := CountTargets(matches, schedule, targets, old(dataset));
      hide Seen;
      if fromFiles.Err? { return Err(fromFiles.error); }
      r := Ok(Snapshot(matching + fromFiles.value.matching, total + fromFiles.value.total, version));
    }
  }

  lemma OneMoreFile<R>(d: Dataset<R>, matches: R -> bool, schedule: Schedule<R>, targets: seq<FileId>, i: nat)
    requires i < |targets| && CountFiles(d, matches, schedule, targets[..i]).Ok?
    ensures var sofar := CountFiles(d, matches, schedule, targets[..i]).value;
      var more := CountOne(Seen(d, schedule, 4 + i).contents.files, matches, targets[i]);
      CountFiles(d, matches, schedule, targets[..i + 1])
      == if more.Err? then more else Ok(Tally(sofar.matching + more.value.matching, sofar.total + more.value.total))
  {
    hide Seen, CountOne;
    assert targets[..i + 1][..i] == targets[..i];
  }

  lemma ThirdQuery<R>(d: Dataset<R>, schedule: Schedule<R>)
    ensures Seen(d, schedule, 3) == After(After(After(After(d, schedule(0)), schedule(1)), schedule(2)), schedule(3))
    ensures Seen(d, schedule, 2) == After(After(After(d, schedule(0)), schedule(1)), schedule(2))
    ensures Seen(d, schedule, 1) == After(After(d, schedule(0)), schedule(1))
  {
    var k := 0;
    assert Seen(d, schedule, k) == After(d, schedule(0));
    assert Seen(d, schedule, k + 1) == After(Seen(d, schedule, k), schedule(1));
    assert Seen(d, schedule, k + 2) == After(Seen(d, schedule, k + 1), schedule(2));
    assert Seen(d, schedule, k + 3) == After(Seen(d, schedule, k + 2), schedule(3));
  }

  lemma {:induction false} FailsAtOnce<R>(d: Dataset<R>, matches: R -> bool, schedule: Schedule<R>, targets: seq<FileId>, i: nat)
    requires i <= |targets| && CountFiles(d, matches, schedule, targets[..i]).Err?
    ensures CountFiles(d, matches, schedule, targets) == CountFiles(d, matches, schedule, targets[..i])
  {
    if i < |targets| {
      assert targets[..|targets| - 1][..i] == targets[..i];
      FailsAtOnce(d, matches, schedule, targets[..|targets| - 1], i);
    } else {
      assert targets[..i] == targets;
    }
  }
}
