/**
 Failed logins and the lockout they cause, with one clock that never goes back.

 Times are microseconds, and email addresses are already stripped and lower-cased.
 */
module Lockout {
  import opened Outcomes

  const THRESHOLD := 5
  const WINDOW := 15 * 60 * 1000000

  datatype Failure = Failure(email: string, at: int)

  datatype User = User(password: string, suspended: bool, verified: bool)

  datatype Outcome = Success | TooManyAttempts | InvalidCredentials | AccountSuspended | EmailUnverified

  datatype Attempt = Attempt(email: string, password: string, now: int)

  /** How often `email` failed at `from` or later. */
  function CountSince(failures: seq<Failure>, email: string, from: int): (n: nat)
    ensures n <= |failures|
  {
    if failures == [] then 0
    else
      var last := failures[|failures| - 1];
      CountSince(failures[..|failures| - 1], email, from) + if last.email == email && last.at >= from then 1 else 0
  }

  predicate IsLockedOut(failures: seq<Failure>, email: string, now: int) {
    CountSince(failures, email, now - WINDOW) >= THRESHOLD
  }

  function OutcomeOf(users: map<string, User>, failures: seq<Failure>, a: Attempt): Outcome {
    if IsLockedOut(failures, a.email, a.now) then TooManyAttempts
    else if a.email !in users || users[a.email].password != a.password then InvalidCredentials
    else if users[a.email].suspended then AccountSuspended
    else if !users[a.email].verified then EmailUnverified
    else Success
  }

  /** Only a wrong password and a suspended account are recorded; a refused attempt is not. */
  function Recorded(users: map<string, User>, failures: seq<Failure>, a: Attempt): seq<Failure> {
    var outcome := OutcomeOf(users, failures, a);
    if outcome == InvalidCredentials || outcome == AccountSuspended then failures + [Failure(a.email, a.now)] else failures
  }

  /** The account exists and its password is the one given. */
  predicate Knows(users: map<string, User>, a: Attempt) {
    a.email in users && users[a.email].password == a.password
  }

  lemma WhoGetsIn(users: map<string, User>, failures: seq<Failure>, a: Attempt)
    ensures var recent := CountSince(failures, a.email, a.now - 15 * 60 * 1_000_000);
      && OutcomeOf(users, failures, a)
         == (if recent >= 5 then TooManyAttempts
             else if !Knows(users, a) then InvalidCredentials
             else if users[a.email].suspended then AccountSuspended
             else if !users[a.email].verified then EmailUnverified
             else Success)
      && Recorded(users, failures, a)
         == failures + if recent < 5 && (!Knows(users, a) || users[a.email].suspended) then [Failure(a.email, a.now)] else []
  {
    hide CountSince;
  }

  class LoginDesk {
    var users: map<string, User>
    var failures: seq<Failure>

    constructor (accounts: map<string, User>)
      ensures users == accounts && failures == [] && Inv(failures)
    {
      users, failures := accounts, [];
    }

    method CountRecent(email: string, now: int) returns (count: nat)
      ensures count == CountSince(failures, email, now - WINDOW)
    {
      count := 0;
      for i := 0 to |failures|
        invariant count == CountSince(failures[..i], email, now - WINDOW)
      {
        assert failures[..i + 1][..i] == failures[..i];
        if failures[i].email == email && failures[i].at >= now - WINDOW { count := count + 1; }
      }
      assert failures[..|failures|] == failures;
    }

    /**
     Who gets in: exactly the one who gives the account's password, for a verified account that is not
     suspended, with fewer than five failures in the last fifteen minutes. Exactly a wrong password and a
     suspended account, when not locked out, leave a failure behind.
     */
    method Authenticate(a: Attempt) returns (outcome: Outcome)
      requires Inv(failures) && ClockReaches(failures, a.now)
      modifies this`failures
      ensures var recent := CountSince(old(failures), a.email, a.now - 15 * 60 * 1_000_000);
        && (outcome == Success <==>
              recent < 5 && a.email in users && users[a.email].password == a.password
              && users[a.email].verified && !users[a.email].suspended)
        && (outcome == TooManyAttempts <==> recent >= 5)
        && (outcome == InvalidCredentials <==> recent < 5 && !(a.email in users && users[a.email].password == a.password))
        && (outcome == AccountSuspended <==>
              recent < 5 && a.email in users && users[a.email].password == a.password && users[a.email].suspended)
        && (outcome == EmailUnverified <==>
              recent < 5 && a.email in users && users[a.email].password == a.password
              && !users[a.email].suspended && !users[a.email].verified)
        && failures == old(failures)
             + if recent < 5 && (!(a.email in users && users[a.email].password == a.password) || users[a.email].suspended)
               then [Failure(a.email, a.now)] else []
      ensures outcome == OutcomeOf(users, old(failures), a)
      ensures failures == Recorded(users, old(failures), a)
      ensures Inv(failures) && ClockReaches(failures, a.now)
    {
      hide Inv, ClockReaches, CountSince;
      RecordingKeepsInv(users, failures, a);
      WhoGetsIn(users, failures, a);
      hide OutcomeOf, Recorded;
      var count := CountRecent(a.email, a.now);
      if count >= THRESHOLD { return TooManyAttempts; }
      if a.email !in users || users[a.email].password != a.password {
        failures := failures + [Failure(a.email, a.now)];
        return InvalidCredentials;
      }
      if users[a.email].suspended {
        failures := failures + [Failure(a.email, a.now)];
        return AccountSuspended;
      }
      if !users[a.email].verified { return EmailUnverified; }
      return Success;
    }
  }

  // ---------------------------------------------------------------- every window, over every run

  predicate ClockReaches(failures: seq<Failure>, now: int) {
    forall i :: 0 <= i < |failures| ==> failures[i].at <= now
  }

  /** Failures are in order of time, and each was recorded when its email had fewer than five in its own window. */
  ghost predicate Inv(failures: seq<Failure>) {
    && (forall i, j :: 0 <= i < j < |failures| ==> failures[i].at <= failures[j].at)
    && (forall k :: 0 <= k < |failures| ==> CountSince(failures[..k], failures[k].email, failures[k].at - WINDOW) < THRESHOLD)
  }

  lemma RecordingKeepsInv(users: map<string, User>, failures: seq<Failure>, a: Attempt)
    requires Inv(failures) && ClockReaches(failures, a.now)
    ensures Inv(Recorded(users, failures, a)) && ClockReaches(Recorded(users, failures, a), a.now)
  {
    var after := Recorded(users, failures, a);
    hide CountSince;
    forall k | 0 <= k < |after| ensures CountSince(after[..k], after[k].email, after[k].at - WINDOW) < THRESHOLD {
      if k < |failures| { assert after[..k] == failures[..k]; } else { assert after[..k] == failures; }
    }
  }

  /** The failures of `email` from `from` to `to`, both included. */
  function CountWithin(failures: seq<Failure>, email: string, from: int, to: int): nat {
    if failures == [] then 0
    else
      var last := failures[|failures| - 1];
      CountWithin(failures[..|failures| - 1], email, from, to) + if last.email == email && from <= last.at <= to then 1 else 0
  }

  function Within(failures: seq<Failure>, email: string, from: int, to: int): set<int> {
    set i | 0 <= i < |failures| && failures[i].email == email && from <= failures[i].at <= to
  }

  lemma WithinAdds(failures: seq<Failure>, last: Failure, email: string, from: int, to: int)
    ensures |Within(failures + [last], email, from, to)|
         == |Within(failures, email, from, to)| + if last.email == email && from <= last.at <= to then 1 else 0
  {
    assert Within(failures + [last], email, from, to)
        == Within(failures, email, from, to) + if last.email == email && from <= last.at <= to then {|failures|} else {};
  }

  /** Counting the failures of a window is counting their indices. */
  lemma {:induction false} CountWithinCounts(failures: seq<Failure>, email: string, from: int, to: int)
    ensures CountWithin(failures, email, from, to) == |Within(failures, email, from, to)|
  {
    hide Within;
    if failures == [] {
      assert Within([], email, from, to) == {} by { NothingWithin(email, from, to); }
    } else {
      var n := |failures| - 1;
      CountWithinCounts(failures[..n], email, from, to);
      WithinAdds(failures[..n], failures[n], email, from, to);
      assert failures[..n] + [failures[n]] == failures;
    }
  }

  lemma NothingWithin(email: string, from: int, to: int)
    ensures Within([], email, from, to) == {}
  {
  }

  lemma {:induction false} WithinIsSince(failures: seq<Failure>, email: string, from: int, to: int, later: int)
    requires from >= later
    ensures CountWithin(failures, email, from, to) <= CountSince(failures, email, later)
  {
    if failures != [] { WithinIsSince(failures[..|failures| - 1], email, from, to, later); }
  }

  /** Wherever a window of fifteen minutes is laid over the record, it holds at most five failures of one email. */
  lemma {:induction false} EveryWindowHoldsFive(failures: seq<Failure>, email: string, from: int)
    requires Inv(failures)
    ensures CountWithin(failures, email, from, from + WINDOW) <= THRESHOLD
  {
    if failures != [] {
      var n := |failures| - 1;
      var most, last := failures[..n], failures[n];
      assert Inv(most) by { PrefixKeepsInv(failures, n); }
      EveryWindowHoldsFive(most, email, from);
      if last.email == email && from <= last.at <= from + WINDOW {
        WithinIsSince(most, email, from, from + WINDOW, last.at - WINDOW);
      }
    }
  }

  lemma PrefixKeepsInv(failures: seq<Failure>, n: nat)
    requires Inv(failures) && n <= |failures|
    ensures Inv(failures[..n])
  {
    hide CountSince;
    forall k | 0 <= k < n ensures failures[..n][..k] == failures[..k] {}
  }

  predicate InOrder(attempts: seq<Attempt>, start: int) {
    && (forall i :: 0 <= i < |attempts| ==> attempts[i].now >= start)
    && (forall i, j :: 0 <= i < j < |attempts| ==> attempts[i].now <= attempts[j].now)
  }

  function RunOf(users: map<string, User>, failures: seq<Failure>, attempts: seq<Attempt>): seq<Failure>
    decreases |attempts|
  {
    if attempts == [] then failures
    else Recorded(users, RunOf(users, failures, attempts[..|attempts| - 1]), attempts[|attempts| - 1])
  }

  lemma {:induction false} RunKeepsInv(users: map<string, User>, failures: seq<Failure>, attempts: seq<Attempt>, start: int)
    requires Inv(failures) && ClockReaches(failures, start) && InOrder(attempts, start)
    ensures var after := RunOf(users, failures, attempts);
      Inv(after) && ClockReaches(after, if attempts == [] then start else attempts[|attempts| - 1].now)
  {
    hide Inv, Recorded;
    if attempts != [] {
      var most, last := attempts[..|attempts| - 1], attempts[|attempts| - 1];
      RunKeepsInv(users, failures, most, start);
      LaterClock(RunOf(users, failures, most), if most == [] then start else most[|most| - 1].now, last.now);
      RecordingKeepsInv(users, RunOf(users, failures, most), last);
    }
  }

  lemma LaterClock(failures: seq<Failure>, now: int, later: int)
    requires ClockReaches(failures, now) && now <= later
    ensures ClockReaches(failures, later)
  {
  }

  /** No password gets anyone in while five failures lie in the fifteen minutes before, and being refused changes nothing. */
  lemma LockedMeansRefused(users: map<string, User>, failures: seq<Failure>, attempts: seq<Attempt>, a: Attempt)
    requires CountSince(RunOf(users, failures, attempts), a.email, a.now - WINDOW) >= THRESHOLD
    ensures OutcomeOf(users, RunOf(users, failures, attempts), a) == TooManyAttempts
    ensures RunOf(users, failures, attempts + [a]) == RunOf(users, failures, attempts)
  {
    assert (attempts + [a])[..|attempts|] == attempts;
  }

  /** So is counting those since a time, when the clock has not passed `now`. */
  lemma {:induction false} CountSinceIsCountWithin(failures: seq<Failure>, email: string, from: int, now: int)
    requires ClockReaches(failures, now)
    ensures CountSince(failures, email, from) == CountWithin(failures, email, from, now)
  {
    if failures != [] {
      CountSinceIsCountWithin(failures[..|failures| - 1], email, from, now);
    }
  }

  // ---------------------------------------------------------------- how long a lockout lasts

  /** When `email` failed, in order. */
  function TimesOf(failures: seq<Failure>, email: string): seq<int> {
    if failures == [] then []
    else
      var last := failures[|failures| - 1];
      TimesOf(failures[..|failures| - 1], email) + if last.email == email then [last.at] else []
  }

  predicate Sorted(times: seq<int>) {
    forall i, j :: 0 <= i < j < |times| ==> times[i] <= times[j]
  }

  lemma {:induction false} TimesAreSorted(failures: seq<Failure>, email: string)
    requires forall i, j :: 0 <= i < j < |failures| ==> failures[i].at <= failures[j].at
    ensures Sorted(TimesOf(failures, email))
    ensures forall k :: 0 <= k < |TimesOf(failures, email)| ==> exists i :: 0 <= i < |failures| && failures[i].at == TimesOf(failures, email)[k]
  {
    if failures != [] { TimesAreSorted(failures[..|failures| - 1], email); }
  }

  function CountTimes(times: seq<int>, from: int): nat {
    if times == [] then 0
    else CountTimes(times[..|times| - 1], from) + if times[|times| - 1] >= from then 1 else 0
  }

  lemma {:induction false} CountByTimes(failures: seq<Failure>, email: string, from: int)
    ensures CountSince(failures, email, from) == CountTimes(TimesOf(failures, email), from)
  {
    if failures != [] {
      var most, last := failures[..|failures| - 1], failures[|failures| - 1];
      CountByTimes(most, email, from);
      var times := TimesOf(most, email) + [last.at];
      assert times[..|times| - 1] == TimesOf(most, email);
      assert TimesOf(most, email) + [] == TimesOf(most, email);
    }
  }

  /** In a sorted record at least `m` times are recent exactly if the m-th from the end is. */
  lemma {:induction false} MthFromTheEnd(times: seq<int>, from: int, m: nat)
    requires Sorted(times) && m >= 1
    ensures CountTimes(times, from) >= m <==> |times| >= m && times[|times| - m] >= from
    decreases |times|
  {
    if times != [] {
      var most := times[..|times| - 1];
      if m > 1 {
        MthFromTheEnd(most, from, m - 1);
        MthFromTheEnd(most, from, m);
      } else {
        NoneIfLastIsOld(times, from);
      }
    }
  }

  lemma {:induction false} NoneIfLastIsOld(times: seq<int>, from: int)
    requires Sorted(times) && times != []
    ensures CountTimes(times, from) >= 1 <==> times[|times| - 1] >= from
  {
    if |times| > 1 {
      NoneIfLastIsOld(times[..|times| - 1], from);
    }
  }

  /** The lockout in force ends fifteen minutes after the fifth most recent failure. */
  function ReleaseTime(failures: seq<Failure>, email: string): int
    requires |TimesOf(failures, email)| >= THRESHOLD
  {
    var times := TimesOf(failures, email);
    times[|times| - THRESHOLD] + WINDOW
  }

  lemma LockedExactlyUntilRelease(failures: seq<Failure>, email: string, now: int)
    requires Inv(failures)
    ensures IsLockedOut(failures, email, now) <==> |TimesOf(failures, email)| >= THRESHOLD && now <= ReleaseTime(failures, email)
  {
    hide Inv, TimesOf, CountSince, CountTimes;
    CountByTimes(failures, email, now - WINDOW);
    KnownSorted(failures, email);
    MthFromTheEnd(TimesOf(failures, email), now - WINDOW, THRESHOLD);
  }

  lemma RecordedTimes(users: map<string, User>, failures: seq<Failure>, a: Attempt, email: string)
    ensures a.email != email || IsLockedOut(failures, email, a.now) ==> TimesOf(Recorded(users, failures, a), email) == TimesOf(failures, email)
  {
    var all := failures + [Failure(a.email, a.now)];
    assert all[..|all| - 1] == failures;
    assert TimesOf(failures, email) + [] == TimesOf(failures, email);
  }

  /**
   A lockout cannot be prolonged. Whatever is tried while it lasts, by anyone and for any email, the next
   attempt is refused if and only if it comes by the release time, which is within fifteen minutes of the
   last recorded failure.
   */
  lemma {:induction false} LockoutIsNotProlonged(users: map<string, User>, failures: seq<Failure>, attempts: seq<Attempt>, start: int, a: Attempt)
    requires Inv(failures) && ClockReaches(failures, start) && IsLockedOut(failures, a.email, start) && InOrder(attempts + [a], start)
    requires |TimesOf(failures, a.email)| >= THRESHOLD
    requires forall i :: 0 <= i < |attempts| && attempts[i].email == a.email ==> attempts[i].now <= ReleaseTime(failures, a.email)
    ensures var times := TimesOf(failures, a.email);
      ReleaseTime(failures, a.email) <= times[|times| - 1] + WINDOW
    ensures TimesOf(RunOf(users, failures, attempts), a.email) == TimesOf(failures, a.email)
    ensures OutcomeOf(users, RunOf(users, failures, attempts), a) == TooManyAttempts <==> a.now <= ReleaseTime(failures, a.email)
  {
    hide Inv, Recorded, IsLockedOut, TimesOf;
    assert Sorted(TimesOf(failures, a.email)) by { KnownSorted(failures, a.email); }
    assert InOrder(attempts, start) by { PrefixInOrder(attempts, a, start); }
    LockedTimesStay(users, failures, attempts, start, a.email);
    RunKeepsInv(users, failures, attempts, start);
    LockedExactlyUntilRelease(RunOf(users, failures, attempts), a.email, a.now);
  }

  lemma PrefixInOrder(attempts: seq<Attempt>, a: Attempt, start: int)
    requires InOrder(attempts + [a], start)
    ensures InOrder(attempts, start)
  {
    var all := attempts + [a];
    assert forall i :: 0 <= i < |attempts| ==> all[i] == attempts[i];
  }

  lemma KnownSorted(failures: seq<Failure>, email: string)
    requires Inv(failures)
    ensures Sorted(TimesOf(failures, email))
  {
    TimesAreSorted(failures, email);
  }

  lemma {:induction false} LockedTimesStay(users: map<string, User>, failures: seq<Failure>, attempts: seq<Attempt>, start: int, email: string)
    requires Inv(failures) && ClockReaches(failures, start) && |TimesOf(failures, email)| >= THRESHOLD
    requires InOrder(attempts, start)
    requires forall i :: 0 <= i < |attempts| && attempts[i].email == email ==> attempts[i].now <= ReleaseTime(failures, email)
    ensures TimesOf(RunOf(users, failures, attempts), email) == TimesOf(failures, email)
  {
    hide Inv, Recorded, IsLockedOut, TimesOf;
    if attempts != [] {
      var most, last := attempts[..|attempts| - 1], attempts[|attempts| - 1];
      LockedTimesStay(users, failures, most, start, email);
      RunKeepsInv(users, failures, most, start);
      var before := RunOf(users, failures, most);
      LockedExactlyUntilRelease(before, email, last.now);
      RecordedTimes(users, before, last, email);
    }
  }
}
