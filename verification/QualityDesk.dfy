/** The quality scan as it runs: detectors that loop over rows and files, and the table of issues they add to. */
module QualityDesk {
  import opened Outcomes
  import opened QualityScan
  import Outliers

  function Get(totals: map<Id, nat>, d: Id): nat {
    if d in totals then totals[d] else 0
  }

  // ---------------------------------------------------------------- duplicates

  method DetectDuplicates(data: Data, issues: seq<Issue>) returns (found: seq<Issue>)
    ensures Reports(data, DuplicateRecords, issues, found)
  {
    hide HasDuplicates;
    var dupes := set d | d in data.sql && HasDuplicates(data.sql[d]);
    assert !HasDuplicates([]) by { NoDuplicatesInNothing(); }
    for i := 0 to |data.files|
      invariant forall d :: d in dupes <==>
        HasDuplicates(SqlRows(data, d)) || exists j :: 0 <= j < i && data.files[j].dataset == d && HasDuplicates(data.files[j].rows)
    {
      if HasDuplicates(data.files[i].rows) {
        dupes := dupes + {data.files[i].dataset};
      }
    }
    found := Report(data, DuplicateRecords, issues, map d | d in dupes :: Medium);
  }

  lemma NoDuplicatesInNothing()
    ensures !HasDuplicates([])
  {
  }

  /** The dedup loop: an issue for every flagged dataset that has none open of this kind. */
  method Report(data: Data, kind: IssueType, issues: seq<Issue>, flagged: map<Id, Severity>) returns (found: seq<Issue>)
    requires forall d :: d in flagged <==> IsFlagged(data, d, kind)
    requires forall d :: d in flagged ==> flagged[d] == SeverityOf(data, d, kind)
    ensures Reports(data, kind, issues, found)
  {
    hide IsFlagged, SeverityOf;
    found := [];
    var left := flagged.Keys;
    while left != {}
      invariant left <= flagged.Keys
      invariant forall i :: 0 <= i < |found| ==>
        found[i].dataset in flagged.Keys - left && found[i] == Issue(found[i].dataset, kind, flagged[found[i].dataset], Open)
      invariant forall i, j :: 0 <= i < j < |found| ==> found[i].dataset != found[j].dataset
      invariant forall d :: d in flagged.Keys - left && !HasOpen(issues, d, kind) <==> HasOpen(found, d, kind)
      decreases |left|
    {
      var d :| d in left;
      if !HasOpen(issues, d, kind) {
        var issue := Issue(d, kind, flagged[d], Open);
        OneMoreOpen(found, issue);
        found := found + [issue];
      }
      left := left - {d};
      hide HasOpen;
    }
    assert flagged.Keys - left == flagged.Keys;
  }

  lemma OneMoreOpen(found: seq<Issue>, issue: Issue)
    requires issue.status == Open
    ensures forall d :: HasOpen(found + [issue], d, issue.kind) <==> HasOpen(found, d, issue.kind) || d == issue.dataset
  {
    assert [issue][0] == issue;
    forall d { HasOpenInConcat(found, [issue], d, issue.kind); }
  }

  // ---------------------------------------------------------------- outliers

  /** One group's row of statistics, and the query that counts beyond them. */
  method CountGroup(values: seq<real>) returns (count: nat)
    ensures count == Outliers.OutlierCount(values)
  {
    if |values| < 2 { return 0; }
    var mean, variance := Outliers.Mean(values), Outliers.Variance(values);
    if variance <= 0.0 { return 0; }
    count := Outliers.Beyond(values, mean, variance);
  }

  method CountRows(rows: seq<Row>) returns (count: nat)
    ensures count == OutliersIn(rows)
  {
    var parameters := Parameters(rows);
    count := 0;
    for i := 0 to |parameters|
      invariant count == OutliersOver(rows, parameters[..i])
    {
      assert parameters[..i + 1][..i] == parameters[..i];
      var more := CountGroup(Values(rows, parameters[i]));
      count := count + more;
    }
    assert parameters[..|parameters|] == parameters;
  }

  predicate AllPositive(totals: map<Id, nat>) {
    forall d :: d in totals ==> totals[d] > 0
  }

  /** A dataset enters the map with its first outlier. */
  function Plus(totals: map<Id, nat>, d: Id, count: nat): (after: map<Id, nat>)
    ensures AllPositive(totals) ==> AllPositive(after)
    ensures forall e :: Get(after, e) == Get(totals, e) + if e == d then count else 0
  {
    if count > 0 then totals[d := Get(totals, d) + count] else totals
  }

  method TotalInSql(data: Data) returns (totals: map<Id, nat>)
    ensures AllPositive(totals)
    ensures forall d :: Get(totals, d) == OutliersIn(SqlRows(data, d))
  {
    assert OutliersIn([]) == 0;
    hide OutliersIn, Plus;
    totals := map[];
    var left := data.sql.Keys;
    while left != {}
      invariant left <= data.sql.Keys && AllPositive(totals)
      invariant forall d :: Get(totals, d) == if d in data.sql.Keys - left then OutliersIn(data.sql[d]) else 0
      decreases |left|
    {
      var d :| d in left;
      var count := CountRows(data.sql[d]);
      totals := Plus(totals, d, count);
      left := left - {d};
    }
  }

  method TotalOutliers(data: Data) returns (totals: map<Id, nat>)
    ensures AllPositive(totals)
    ensures forall d :: Get(totals, d) == OutlierTotal(data, d)
  {
    hide OutliersIn, Plus;
    totals := TotalInSql(data);
    for i := 0 to |data.files|
      invariant AllPositive(totals)
      invariant forall d :: Get(totals, d) == OutliersIn(SqlRows(data, d)) + OutliersInFiles(data.files[..i], d)
    {
      assert data.files[..i + 1][..i] == data.files[..i];
      var count := CountRows(data.files[i].rows);
      totals := Plus(totals, data.files[i].dataset, count);
    }
    assert data.files[..|data.files|] == data.files;
  }

  method DetectOutliers(data: Data, issues: seq<Issue>) returns (found: seq<Issue>)
    ensures Reports(data, OutlyingValues, issues, found)
  {
    var totals := TotalOutliers(data);
    hide OutlierTotal;
    found := Report(data, OutlyingValues, issues, map d | d in totals :: if totals[d] < 10 then Low else Medium);
  }

  // ---------------------------------------------------------------- missing values

  function FilesOf(files: seq<File>, d: Id): seq<File> {
    if files == [] then []
    else FilesOf(files[..|files| - 1], d) + if files[|files| - 1].dataset == d then [files[|files| - 1]] else []
  }

  method GroupFiles(files: seq<File>) returns (byDataset: map<Id, seq<File>>)
    ensures forall d :: FilesOf(files, d) == if d in byDataset then byDataset[d] else []
  {
    byDataset := map[];
    for i := 0 to |files|
      invariant forall d :: FilesOf(files[..i], d) == if d in byDataset then byDataset[d] else []
    {
      assert files[..i + 1][..i] == files[..i];
      var d := files[i].dataset;
      byDataset := byDataset[d := (if d in byDataset then byDataset[d] else []) + [files[i]]];
    }
    assert files[..|files|] == files;
  }

  function Counted(files: seq<File>): nat {
    if files == [] then 0 else Counted(files[..|files| - 1]) + |files[|files| - 1].rows|
  }

  lemma {:induction false} CountedOf(files: seq<File>, d: Id)
    ensures Counted(FilesOf(files, d)) == RowsInFiles(files, d)
  {
    if files != [] {
      var most, last := files[..|files| - 1], files[|files| - 1];
      CountedOf(most, d);
      if last.dataset == d {
        var all := FilesOf(most, d) + [last];
        assert all[..|all| - 1] == FilesOf(most, d);
      } else {
        assert FilesOf(most, d) + [] == FilesOf(most, d);
      }
    }
  }

  method CountActual(sqlCount: nat, files: seq<File>) returns (actual: nat)
    ensures actual == sqlCount + Counted(files)
  {
    actual := sqlCount;
    for i := 0 to |files|
      invariant actual == sqlCount + Counted(files[..i])
    {
      assert files[..i + 1][..i] == files[..i];
      actual := actual + |files[i].rows|;
    }
    assert files[..|files|] == files;
  }

  method DetectMissing(data: Data, issues: seq<Issue>) returns (found: seq<Issue>)
    ensures Reports(data, MissingValues, issues, found)
  {
    var byDataset := GroupFiles(data.files);
    var short: set<Id> := {};
    var left := data.declared.Keys;
    while left != {}
      invariant left <= data.declared.Keys
      invariant forall d :: d in short <==> d in data.declared.Keys - left && IsShort(data, d)
      decreases |left|
    {
      var d :| d in left;
      CountedOf(data.files, d);
      hide RowsInFiles, Counted, FilesOf;
      if data.declared[d] > 0 {
        var actual := CountActual(|SqlRows(data, d)|, if d in byDataset then byDataset[d] else []);
        if 100 * actual < 95 * data.declared[d] { short := short + {d}; }
      }
      left := left - {d};
    }
    assert data.declared.Keys - left == data.declared.Keys;
    assert forall d :: d in short <==> IsShort(data, d) by { NotDeclaredNotShort(data); }
    hide IsShort;
    found := Report(data, MissingValues, issues, map d | d in short :: Medium);
  }

  lemma NotDeclaredNotShort(data: Data)
    ensures forall d :: IsShort(data, d) ==> d in data.declared
  {
  }

  // ---------------------------------------------------------------- the table

  class Desk {
    var issues: seq<Issue>

    constructor ()
      ensures issues == [] && UniqueOpen(issues)
    {
      issues := [];
    }

    method RunScan(data: Data) returns (found: seq<Issue>)
      requires UniqueOpen(issues)
      modifies this
      ensures issues == old(issues) + found && IsScan(data, old(issues), found)
      ensures UniqueOpen(issues)
    {
      hide Reports, UniqueOpen;
      var a := DetectDuplicates(data, issues);
      var b := DetectOutliers(data, issues);
      var c := DetectMissing(data, issues);
      found := a + b + c;
      ScanReportsExactly(data, issues, found);
      issues := issues + found;
    }

    /** The status an admin may set is RESOLVED or IGNORED, whatever it was before. */
    method UpdateStatus(i: nat, status: Status)
      requires UniqueOpen(issues) && i < |issues| && status != Open
      modifies this
      ensures issues == old(issues)[i := old(issues)[i].(status := status)]
      ensures UniqueOpen(issues)
    {
      issues := issues[i := issues[i].(status := status)];
    }
  }

  // ---------------------------------------------------------------- how much data an outlier issue takes

  function RowsWith(rows: seq<Row>, parameters: seq<nat>): nat {
    if parameters == [] then 0
    else RowsWith(rows, parameters[..|parameters| - 1]) + |Values(rows, parameters[|parameters| - 1])|
  }

  lemma {:induction false} OneMoreRow(rows: seq<Row>, last: Row, parameters: seq<nat>)
    requires forall i, j :: 0 <= i < j < |parameters| ==> parameters[i] != parameters[j]
    ensures RowsWith(rows + [last], parameters) == RowsWith(rows, parameters) + if last.parameter in parameters then 1 else 0
  {
    var all := rows + [last];
    assert all[..|all| - 1] == rows;
    if parameters != [] {
      OneMoreRow(rows, last, parameters[..|parameters| - 1]);
    }
  }

  lemma {:induction false} GroupsAreDisjoint(rows: seq<Row>, parameters: seq<nat>)
    requires forall i, j :: 0 <= i < j < |parameters| ==> parameters[i] != parameters[j]
    ensures RowsWith(rows, parameters) <= |rows|
  {
    if rows == [] {
      NoRows(parameters);
    } else {
      GroupsAreDisjoint(rows[..|rows| - 1], parameters);
      OneMoreRow(rows[..|rows| - 1], rows[|rows| - 1], parameters);
      assert rows[..|rows| - 1] + [rows[|rows| - 1]] == rows;
    }
  }

  lemma NoRows(parameters: seq<nat>)
    ensures RowsWith([], parameters) == 0
  {
  }

  lemma {:induction false} GroupsBound(rows: seq<Row>, parameters: seq<nat>)
    ensures var k := OutliersOver(rows, parameters); k > 0 ==> 9 * k + 2 <= RowsWith(rows, parameters)
  {
    if parameters != [] {
      GroupsBound(rows, parameters[..|parameters| - 1]);
      var values := Values(rows, parameters[|parameters| - 1]);
      if Outliers.OutlierCount(values) >= 1 { Outliers.OutlierBound(values); }
    }
  }

  lemma RowsBound(rows: seq<Row>)
    ensures OutliersIn(rows) > 0 ==> 9 * OutliersIn(rows) + 2 <= |rows|
  {
    GroupsBound(rows, Parameters(rows));
    GroupsAreDisjoint(rows, Parameters(rows));
  }

  lemma {:induction false} FilesBound(files: seq<File>, d: Id)
    ensures OutliersInFiles(files, d) > 0 ==> 9 * OutliersInFiles(files, d) + 2 <= RowsInFiles(files, d)
  {
    if files != [] {
      FilesBound(files[..|files| - 1], d);
      RowsBound(files[|files| - 1].rows);
      hide OutliersIn;
    }
  }

  /**
   A dataset with `n` values in all, however they are split over parameters and files, has fewer than n / 9
   outliers: none below 11 values, and a MEDIUM issue not below 92.
   */
  lemma DatasetBound(data: Data, d: Id)
    requires IsFlagged(data, d, OutlyingValues)
    ensures 9 * OutlierTotal(data, d) + 2 <= RowTotal(data, d) && RowTotal(data, d) >= 11
    ensures SeverityOf(data, d, OutlyingValues) == Medium ==> RowTotal(data, d) >= 92
  {
    RowsBound(SqlRows(data, d));
    FilesBound(data.files, d);
  }

  // ---------------------------------------------------------------- and that little is enough

  function RowsFrom(values: seq<real>): (rows: seq<Row>)
    ensures |rows| == |values|
  {
    seq(|values|, i requires 0 <= i < |values| => Row(None, None, 0, values[i]))
  }

  lemma {:induction false} OneParameter(values: seq<real>)
    ensures Values(RowsFrom(values), 0) == values
    ensures Parameters(RowsFrom(values)) == if values == [] then [] else [0]
  {
    if values != [] {
      var most := values[..|values| - 1];
      OneParameter(most);
      assert RowsFrom(values)[..|values| - 1] == RowsFrom(most);
      assert values == most + [values[|values| - 1]];
    }
  }

  /** A dataset of one parameter, in SQL. */
  function OneGroup(values: seq<real>): Data {
    Data(map[0 := RowsFrom(values)], [], map[])
  }

  lemma OneGroupTotals(values: seq<real>)
    requires values != []
    ensures OutlierTotal(OneGroup(values), 0) == Outliers.OutlierCount(values)
    ensures RowTotal(OneGroup(values), 0) == |values|
  {
    OneParameter(values);
    var rows := RowsFrom(values);
    assert SqlRows(OneGroup(values), 0) == rows;
    assert [0][..0] == [] && OutliersOver(rows, []) == 0;
    assert OutliersOver(rows, [0]) == Outliers.OutlierCount(values);
    assert OutliersInFiles([], 0) == 0 && RowsInFiles([], 0) == 0;
  }

  /** Some dataset of `n` values is flagged for outliers exactly from 11 values on, and as MEDIUM exactly from 92 on. */
  lemma FlaggedFromElevenMediumFromNinetyTwo(n: nat)
    ensures (exists data: Data, d: Id :: RowTotal(data, d) == n && IsFlagged(data, d, OutlyingValues)) <==> n >= 11
    ensures (exists data: Data, d: Id :: RowTotal(data, d) == n && IsFlagged(data, d, OutlyingValues)
                                         && SeverityOf(data, d, OutlyingValues) == Medium) <==> n >= 92
  {
    hide RowTotal, OutlierTotal, Outliers.OutlierCount, Outliers.Extreme;
    forall data: Data, d: Id | RowTotal(data, d) == n && IsFlagged(data, d, OutlyingValues)
      ensures n >= 11 && (SeverityOf(data, d, OutlyingValues) == Medium ==> n >= 92)
    {
      DatasetBound(data, d);
    }
    if n >= 11 {
      Reaches(n, 1);
      var data := OneGroup(Outliers.Extreme(n, 1));
      assert RowTotal(data, 0) == n && IsFlagged(data, 0, OutlyingValues);
    }
    if n >= 92 {
      Reaches(n, 10);
      var data := OneGroup(Outliers.Extreme(n, 10));
      assert RowTotal(data, 0) == n && IsFlagged(data, 0, OutlyingValues) && SeverityOf(data, 0, OutlyingValues) == Medium;
    }
  }

  lemma Reaches(n: nat, k: nat)
    requires k >= 1 && 9 * k < n - 1
    ensures var data := OneGroup(Outliers.Extreme(n, k));
      && RowTotal(data, 0) == n && IsFlagged(data, 0, OutlyingValues)
      && SeverityOf(data, 0, OutlyingValues) == if k < 10 then Low else Medium
  {
    hide Outliers.OutlierCount, Outliers.Extreme, RowTotal, OutlierTotal;
    Outliers.ExtremeReachesTheBound(n, k);
    OneGroupTotals(Outliers.Extreme(n, k));
  }

  /** 94 rows of a declared 100 are too few, 95 are not. */
  lemma MissingBelowNinetyFivePercent(rows: seq<Row>)
    ensures var data := Data(map[0 := rows], [], map[0 := 100]);
      IsFlagged(data, 0, MissingValues) <==> |rows| <= 94
  {
  }
}
