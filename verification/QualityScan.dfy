/**
 The quality scan: three detectors over every dataset's SQL rows and Parquet files, and the issues they open.
 */
module QualityScan {
  import opened Outcomes
  import Outliers

  type Id = nat

  datatype IssueType = DuplicateRecords | OutlyingValues | MissingValues
  datatype Severity = Low | Medium
  datatype Status = Open | Resolved | Ignored

  datatype Issue = Issue(dataset: Id, kind: IssueType, severity: Severity, status: Status)

  /** One value, with the dimensions that are present for it. */
  datatype Row = Row(time: Option<int>, station: Option<nat>, parameter: nat, value: real)

  datatype File = File(dataset: Id, rows: seq<Row>)

  /** What one scan finds in the database: SQL rows by dataset, Parquet files, and declared record counts. */
  datatype Data = Data(sql: map<Id, seq<Row>>, files: seq<File>, declared: map<Id, nat>)

  function SqlRows(data: Data, d: Id): seq<Row> {
    if d in data.sql then data.sql[d] else []
  }

  // ---------------------------------------------------------------- duplicates

  /** Rows with neither time nor station are not compared: nothing tells their slots apart. */
  predicate HasDuplicates(rows: seq<Row>) {
    exists i, j :: 0 <= i < j < |rows|
      && (rows[i].time.Some? || rows[i].station.Some?)
      && rows[i].time == rows[j].time && rows[i].station == rows[j].station && rows[i].parameter == rows[j].parameter
  }

  predicate IsDuplicated(data: Data, d: Id) {
    HasDuplicates(SqlRows(data, d)) || exists i :: 0 <= i < |data.files| && data.files[i].dataset == d && HasDuplicates(data.files[i].rows)
  }

  /** What rows are grouped by. */
  datatype Slot = Slot(time: Option<int>, station: Option<nat>, parameter: nat)

  function Slots(rows: seq<Row>): set<Slot> {
    set i | 0 <= i < |rows| && (rows[i].time.Some? || rows[i].station.Some?) :: Slot(rows[i].time, rows[i].station, rows[i].parameter)
  }

  /** The rows that have a time or a station. */
  function Placed(rows: seq<Row>): nat {
    if rows == [] then 0
    else
      var last := rows[|rows| - 1];
      Placed(rows[..|rows| - 1]) + if last.time.Some? || last.station.Some? then 1 else 0
  }

  lemma SlotsAdd(rows: seq<Row>, last: Row)
    ensures Slots(rows + [last])
         == Slots(rows) + if last.time.Some? || last.station.Some? then {Slot(last.time, last.station, last.parameter)} else {}
  {
    var all := rows + [last];
    assert forall i :: 0 <= i < |rows| ==> all[i] == rows[i];
    assert all[|rows|] == last;
  }

  /** Grouping by (time, station, parameter): some group has more than one row exactly if there are fewer groups than rows. */
  lemma {:induction false} DuplicatesAreSharedSlots(rows: seq<Row>)
    ensures |Slots(rows)| <= Placed(rows)
    ensures HasDuplicates(rows) <==> |Slots(rows)| < Placed(rows)
  {
    if rows == [] {
      assert Slots(rows) == {};
    } else {
      var most, last := rows[..|rows| - 1], rows[|rows| - 1];
      DuplicatesAreSharedSlots(most);
      assert rows == most + [last];
      SlotsAdd(most, last);
      DuplicatesAdd(most, last);
      hide HasDuplicates, Slots;
    }
  }

  lemma DuplicatesAdd(rows: seq<Row>, last: Row)
    ensures HasDuplicates(rows + [last])
            <==> HasDuplicates(rows) || ((last.time.Some? || last.station.Some?) && Slot(last.time, last.station, last.parameter) in Slots(rows))
  {
    var all := rows + [last];
    if i, j :| 0 <= i < j < |rows| && (rows[i].time.Some? || rows[i].station.Some?)
               && rows[i].time == rows[j].time && rows[i].station == rows[j].station && rows[i].parameter == rows[j].parameter {
      assert all[i] == rows[i] && all[j] == rows[j];
    }
    if (last.time.Some? || last.station.Some?) && Slot(last.time, last.station, last.parameter) in Slots(rows) {
      var i :| 0 <= i < |rows| && (rows[i].time.Some? || rows[i].station.Some?)
               && Slot(last.time, last.station, last.parameter) == Slot(rows[i].time, rows[i].station, rows[i].parameter);
      assert all[i] == rows[i] && all[|rows|] == last;
    }
  }

  // ---------------------------------------------------------------- outliers

  function Values(rows: seq<Row>, parameter: nat): (values: seq<real>)
    ensures |values| <= |rows|
  {
    if rows == [] then []
    else Values(rows[..|rows| - 1], parameter)
         + if rows[|rows| - 1].parameter == parameter then [rows[|rows| - 1].value] else []
  }

  /** The parameters that occur, each once. */
  function Parameters(rows: seq<Row>): (ps: seq<nat>)
    ensures forall i, j :: 0 <= i < j < |ps| ==> ps[i] != ps[j]
  {
    if rows == [] then []
    else
      var ps := Parameters(rows[..|rows| - 1]);
      if rows[|rows| - 1].parameter in ps then ps else ps + [rows[|rows| - 1].parameter]
  }

  lemma {:induction false} ParametersAreAll(rows: seq<Row>, p: nat)
    ensures p in Parameters(rows) <==> exists i :: 0 <= i < |rows| && rows[i].parameter == p
  {
    if rows != [] { ParametersAreAll(rows[..|rows| - 1], p); }
  }

  function OutliersOver(rows: seq<Row>, parameters: seq<nat>): nat {
    if parameters == [] then 0
    else OutliersOver(rows, parameters[..|parameters| - 1]) + Outliers.OutlierCount(Values(rows, parameters[|parameters| - 1]))
  }

  function OutliersIn(rows: seq<Row>): nat {
    OutliersOver(rows, Parameters(rows))
  }

  function OutliersInFiles(files: seq<File>, d: Id): nat {
    if files == [] then 0
    else OutliersInFiles(files[..|files| - 1], d) + if files[|files| - 1].dataset == d then OutliersIn(files[|files| - 1].rows) else 0
  }

  function OutlierTotal(data: Data, d: Id): nat {
    OutliersIn(SqlRows(data, d)) + OutliersInFiles(data.files, d)
  }

  // ---------------------------------------------------------------- missing values

  function RowsInFiles(files: seq<File>, d: Id): nat {
    if files == [] then 0
    else RowsInFiles(files[..|files| - 1], d) + if files[|files| - 1].dataset == d then |files[|files| - 1].rows| else 0
  }

  function RowTotal(data: Data, d: Id): nat {
    |SqlRows(data, d)| + RowsInFiles(data.files, d)
  }

  /** A file counts for its own dataset and for no other. */
  lemma OneFileCounts(files: seq<File>, f: File, d: Id)
    ensures RowsInFiles(files + [f], d) == RowsInFiles(files, d) + if f.dataset == d then |f.rows| else 0
    ensures OutliersInFiles(files + [f], d) == OutliersInFiles(files, d) + if f.dataset == d then OutliersIn(f.rows) else 0
  {
    var all := files + [f];
    assert all[..|all| - 1] == files;
  }

  predicate IsShort(data: Data, d: Id) {
    d in data.declared && data.declared[d] > 0 && 100 * RowTotal(data, d) < 95 * data.declared[d]
  }

  // ---------------------------------------------------------------- what a scan is to report

  predicate HasOpen(issues: seq<Issue>, d: Id, kind: IssueType) {
    exists i :: 0 <= i < |issues| && issues[i].dataset == d && issues[i].kind == kind && issues[i].status == Open
  }

  predicate IsFlagged(data: Data, d: Id, kind: IssueType) {
    match kind
    case DuplicateRecords => IsDuplicated(data, d)
    case OutlyingValues => OutlierTotal(data, d) > 0
    case MissingValues => IsShort(data, d)
  }

  function SeverityOf(data: Data, d: Id, kind: IssueType): Severity {
    if kind == OutlyingValues && OutlierTotal(data, d) < 10 then Low else Medium
  }

  /** `found` has one OPEN issue for each dataset flagged with `kind` that had none, and nothing else. */
  ghost predicate Reports(data: Data, kind: IssueType, issues: seq<Issue>, found: seq<Issue>) {
    && (forall i, j :: 0 <= i < j < |found| ==> found[i].dataset != found[j].dataset)
    && (forall i :: 0 <= i < |found| ==>
          found[i] == Issue(found[i].dataset, kind, SeverityOf(data, found[i].dataset, kind), Open))
    && (forall d :: IsFlagged(data, d, kind) && !HasOpen(issues, d, kind) <==> HasOpen(found, d, kind))
  }

  /** One scan: the three detectors look at the issues as they were before any of them reported. */
  ghost predicate IsScan(data: Data, issues: seq<Issue>, found: seq<Issue>) {
    exists a, b, c :: found == a + b + c
      && Reports(data, DuplicateRecords, issues, a)
      && Reports(data, OutlyingValues, issues, b)
      && Reports(data, MissingValues, issues, c)
  }

  // ---------------------------------------------------------------- uniqueness

  ghost predicate UniqueOpen(issues: seq<Issue>) {
    forall i, j :: 0 <= i < j < |issues| && issues[i].status == Open && issues[j].status == Open ==>
      issues[i].dataset != issues[j].dataset || issues[i].kind != issues[j].kind
  }

  lemma HasOpenInConcat(a: seq<Issue>, b: seq<Issue>, d: Id, kind: IssueType)
    ensures HasOpen(a + b, d, kind) <==> HasOpen(a, d, kind) || HasOpen(b, d, kind)
  {
    var all := a + b;
    if HasOpen(a, d, kind) {
      var i :| 0 <= i < |a| && a[i].dataset == d && a[i].kind == kind && a[i].status == Open;
      assert all[i] == a[i];
    }
    if HasOpen(b, d, kind) {
      var i :| 0 <= i < |b| && b[i].dataset == d && b[i].kind == kind && b[i].status == Open;
      assert all[|a| + i] == b[i];
    }
  }

  /** Reports of another kind leave what is open of `kind` alone. */
  lemma OtherKind(data: Data, other: IssueType, issues: seq<Issue>, found: seq<Issue>, d: Id, kind: IssueType)
    requires Reports(data, other, issues, found) && kind != other
    ensures !HasOpen(found, d, kind)
  {
  }

  lemma AddingReports(data: Data, kind: IssueType, issues: seq<Issue>, before: seq<Issue>, found: seq<Issue>)
    requires UniqueOpen(before) && Reports(data, kind, issues, found)
    requires forall d :: HasOpen(before, d, kind) ==> HasOpen(issues, d, kind)
    ensures UniqueOpen(before + found)
  {
    var all := before + found;
    forall i, j | 0 <= i < j < |all| && all[i].status == Open && all[j].status == Open
      ensures all[i].dataset != all[j].dataset || all[i].kind != all[j].kind
    {
      if i < |before| <= j {
        assert HasOpen(before, before[i].dataset, before[i].kind);
        assert HasOpen(found, found[j - |before|].dataset, kind);
      }
    }
  }

  lemma OpenAfterReports(data: Data, issues: seq<Issue>, a: seq<Issue>, b: seq<Issue>, c: seq<Issue>, d: Id, kind: IssueType)
    requires Reports(data, DuplicateRecords, issues, a)
    requires Reports(data, OutlyingValues, issues, b)
    requires Reports(data, MissingValues, issues, c)
    ensures HasOpen(issues + a, d, kind) <==> HasOpen(issues, d, kind) || (kind == DuplicateRecords && IsFlagged(data, d, kind))
    ensures HasOpen(issues + a + b, d, kind) <==> HasOpen(issues, d, kind) || (kind != MissingValues && IsFlagged(data, d, kind))
    ensures HasOpen(issues + a + b + c, d, kind) <==> HasOpen(issues, d, kind) || IsFlagged(data, d, kind)
  {
    HasOpenInConcat(issues, a, d, kind);
    HasOpenInConcat(issues + a, b, d, kind);
    HasOpenInConcat(issues + a + b, c, d, kind);
    if kind != DuplicateRecords { OtherKind(data, DuplicateRecords, issues, a, d, kind); }
    if kind != OutlyingValues { OtherKind(data, OutlyingValues, issues, b, d, kind); }
    if kind != MissingValues { OtherKind(data, MissingValues, issues, c, d, kind); }
    hide IsFlagged, HasOpen;
  }

  lemma ReportsKeepUnique(data: Data, issues: seq<Issue>, a: seq<Issue>, b: seq<Issue>, c: seq<Issue>)
    requires Reports(data, DuplicateRecords, issues, a)
    requires Reports(data, OutlyingValues, issues, b)
    requires Reports(data, MissingValues, issues, c)
    requires UniqueOpen(issues)
    ensures UniqueOpen(issues + a + b + c)
  {
    hide UniqueOpen, Reports, HasOpen, IsFlagged;
    forall d, kind { OpenAfterReports(data, issues, a, b, c, d, kind); }
    AddingReports(data, DuplicateRecords, issues, issues, a);
    AddingReports(data, OutlyingValues, issues, issues + a, b);
    AddingReports(data, MissingValues, issues, issues + a + b, c);
  }

  /**
   A scan leaves exactly the flagged datasets with an open issue of each kind, besides those that already had
   one, and never a second open issue for the same dataset and kind.
   */
  lemma ScanReportsExactly(data: Data, issues: seq<Issue>, found: seq<Issue>)
    requires IsScan(data, issues, found)
    ensures forall d, kind :: HasOpen(issues + found, d, kind) <==> HasOpen(issues, d, kind) || IsFlagged(data, d, kind)
    ensures UniqueOpen(issues) ==> UniqueOpen(issues + found)
  {
    var a, b, c :| found == a + b + c
      && Reports(data, DuplicateRecords, issues, a) && Reports(data, OutlyingValues, issues, b) && Reports(data, MissingValues, issues, c);
    hide IsFlagged, HasOpen, UniqueOpen, Reports, IsScan;
    assert issues + a + b + c == issues + found;
    forall d, kind { OpenAfterReports(data, issues, a, b, c, d, kind); }
    if UniqueOpen(issues) { ReportsKeepUnique(data, issues, a, b, c); }
  }

  lemma NothingLeftToReport(data: Data, kind: IssueType, issues: seq<Issue>, found: seq<Issue>)
    requires Reports(data, kind, issues, found)
    requires forall d :: IsFlagged(data, d, kind) ==> HasOpen(issues, d, kind)
    ensures found == []
  {
    FirstIsOpen(data, kind, issues, found);
  }

  lemma FirstIsOpen(data: Data, kind: IssueType, issues: seq<Issue>, found: seq<Issue>)
    requires Reports(data, kind, issues, found)
    ensures found != [] ==> HasOpen(found, found[0].dataset, kind)
  {
  }

  /** Scanning again before anything changes adds nothing. */
  lemma RescanAddsNothing(data: Data, issues: seq<Issue>, found: seq<Issue>, again: seq<Issue>)
    requires IsScan(data, issues, found) && IsScan(data, issues + found, again)
    ensures again == []
  {
    ScanReportsExactly(data, issues, found);
    var a, b, c :| again == a + b + c
      && Reports(data, DuplicateRecords, issues + found, a) && Reports(data, OutlyingValues, issues + found, b)
      && Reports(data, MissingValues, issues + found, c);
    hide Reports, IsFlagged, HasOpen, IsScan;
    NothingLeftToReport(data, DuplicateRecords, issues + found, a);
    NothingLeftToReport(data, OutlyingValues, issues + found, b);
    NothingLeftToReport(data, MissingValues, issues + found, c);
  }

  /** Scans of whatever the data has become, and admins resolving or ignoring issues. */
  ghost predicate Next(issues: seq<Issue>, after: seq<Issue>) {
    || (exists data, found :: IsScan(data, issues, found) && after == issues + found)
    || (exists i, status :: 0 <= i < |issues| && status != Open && after == issues[i := issues[i].(status := status)])
  }

  lemma NextKeepsUnique(issues: seq<Issue>, after: seq<Issue>)
    requires UniqueOpen(issues) && Next(issues, after)
    ensures UniqueOpen(after)
  {
    if data, found :| IsScan(data, issues, found) && after == issues + found {
      hide UniqueOpen, IsScan;
      ScanReportsExactly(data, issues, found);
    }
  }

  /** Over every run there is at most one OPEN issue for each dataset and kind. */
  lemma {:induction false} UniqueOverRuns(trace: seq<seq<Issue>>, n: nat)
    requires n < |trace| && trace[0] == []
    requires forall k :: 0 <= k < n ==> Next(trace[k], trace[k + 1])
    ensures UniqueOpen(trace[n])
  {
    hide Next;
    if n > 0 {
      UniqueOverRuns(trace, n - 1);
      NextKeepsUnique(trace[n - 1], trace[n]);
    }
  }
}
