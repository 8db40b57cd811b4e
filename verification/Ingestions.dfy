/**
 Ingestions that overlap. Each reads the dataset's version, goes on working, and in the end commits its
 contents with the version it read plus one; what has been committed in between it does not see.
 */
module Ingestions {
  import opened Outcomes
  import opened Coverage

  /** An ingestion that read the version as it stood after `readAt` commits of the run. */
  datatype Ingestion<R> = Ingestion(contents: Contents<R>, readAt: nat)

  /** No ingestion reads a state that is still to come. */
  predicate Possible<R>(run: seq<Ingestion<R>>) {
    forall i :: 0 <= i < |run| ==> run[i].readAt <= i
  }

  /** The dataset after the first `n` commits. */
  function State<R>(d: Dataset<R>, run: seq<Ingestion<R>>, n: nat): Dataset<R>
    requires Possible(run) && n <= |run|
  {
    if n == 0 then d
    else
      var i := run[n - 1];
      State(d, run, n - 1).(contents := i.contents, version := NextVersion(State(d, run, i.readAt).version))
  }

  /** Nothing was committed between the ingestion's read and its own commit. */
  predicate IsUpToDate<R>(run: seq<Ingestion<R>>, i: nat)
    requires i < |run|
  {
    run[i].readAt == i
  }

  predicate AllUpToDate<R>(run: seq<Ingestion<R>>, n: nat)
    requires n <= |run|
  {
    forall i :: 0 <= i < n ==> IsUpToDate(run, i)
  }

  /**
   Whenever a request captures the version, and whenever the flag is looked at after that: it is raised exactly
   if something was committed in between.
   */
  predicate FlagIsExact<R>(d: Dataset<R>, run: seq<Ingestion<R>>)
    requires Possible(run)
  {
    forall i: nat, j: nat :: i <= j <= |run| ==>
      (IsStale(Some(State(d, run, i).version), State(d, run, j)) <==> i < j)
  }

  lemma {:induction false} VersionsClimb<R>(d: Dataset<R>, run: seq<Ingestion<R>>, i: nat, j: nat)
    requires Possible(run) && i < j <= |run| && AllUpToDate(run, j)
    ensures State(d, run, i).version < State(d, run, j).version
  {
    assert IsUpToDate(run, j - 1);
    if i < j - 1 { VersionsClimb(d, run, i, j - 1); }
  }

  /** The first ingestion to commit on an outdated read writes a version that was already given out. */
  lemma OutdatedReadRepeatsAVersion<R>(d: Dataset<R>, run: seq<Ingestion<R>>, i: nat)
    requires Possible(run) && i < |run| && AllUpToDate(run, i) && !IsUpToDate(run, i)
    ensures run[i].readAt + 1 <= i && State(d, run, run[i].readAt + 1).version == State(d, run, i + 1).version
  {
    assert IsUpToDate(run, run[i].readAt);
  }

  function FirstOutdated<R>(run: seq<Ingestion<R>>, n: nat): (i: nat)
    requires n <= |run| && !AllUpToDate(run, n)
    ensures i < n && AllUpToDate(run, i) && !IsUpToDate(run, i)
  {
    if AllUpToDate(run, n - 1) then n - 1 else FirstOutdated(run, n - 1)
  }

  /** The staleness flag is exact if and only if no ingestion commits on a version read that another commit has outdated. */
  lemma FlagIsExactIfNoReadIsOutdated<R>(d: Dataset<R>, run: seq<Ingestion<R>>)
    requires Possible(run)
    ensures FlagIsExact(d, run) <==> AllUpToDate(run, |run|)
  {
    if AllUpToDate(run, |run|) {
      forall i: nat, j: nat | i <= j <= |run| ensures IsStale(Some(State(d, run, i).version), State(d, run, j)) <==> i < j {
        if i < j { VersionsClimb(d, run, i, j); }
      }
    } else {
      var i := FirstOutdated(run, |run|);
      OutdatedReadRepeatsAVersion(d, run, i);
      assert !IsStale(Some(State(d, run, run[i].readAt + 1).version), State(d, run, i + 1));
    }
  }

  /** Without outdated reads these are the atomic commits of the snapshot theorems. */
  lemma {:induction false} UpToDateIsAtomic<R>(d: Dataset<R>, run: seq<Ingestion<R>>, n: nat)
    requires Possible(run) && n <= |run| && AllUpToDate(run, n)
    ensures State(d, run, n) == Coverage.After(d, seq(n, i requires 0 <= i < n => run[i].contents))
  {
    if n > 0 {
      UpToDateIsAtomic(d, run, n - 1);
      assert IsUpToDate(run, n - 1);
      var commits := seq(n, i requires 0 <= i < n => run[i].contents);
      assert commits[..n - 1] == seq(n - 1, i requires 0 <= i < n - 1 => run[i].contents);
    }
  }

  /** Two files ingested side by side: a request counted between their commits stays unflagged after the second. */
  lemma SecondFileGoesUnnoticed<R>(d: Dataset<R>, one: Contents<R>, both: Contents<R>)
    requires one.rows != both.rows
    ensures var run := [Ingestion(one, 0), Ingestion(both, 0)];
      && Possible(run) && State(d, run, 1).contents != State(d, run, 2).contents
      && !IsStale(Some(State(d, run, 1).version), State(d, run, 2))
  {
  }
}
