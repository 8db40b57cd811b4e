/**
 The role calls as they run when nothing interleaves: each one commits the atomic change that `Roles`
 proves its interleaved steps add up to, and keeps the two role systems in step.
 */
module RoleService {
  import opened Outcomes
  import opened Roles

  datatype Session = Session(user: UserId, revokedAt: Option<nat>)

  function Revoked(s: Session, now: nat): Session {
    if s.revokedAt.None? then s.(revokedAt := Some(now)) else s
  }

  function RevokedFor(sessions: map<nat, Session>, user: UserId, now: nat): map<nat, Session> {
    map s | s in sessions :: if sessions[s].user == user then Revoked(sessions[s], now) else sessions[s]
  }

  class RoleAdmin {
    var coarse: map<UserId, Coarse>
    var roles: map<RoleId, string>
    var rows: map<RowId, Membership>
    var next: nat
    var sessions: map<nat, Session>

    ghost function View(): Committed
      reads this
    {
      Committed(coarse, roles, rows, next)
    }

    ghost predicate Valid(exact: bool)
      reads this
    {
      Tables(View()) && AllInSync(View(), exact)
    }

    method AssignRole(user: UserId, role: RoleId, ghost exact: bool) returns (failure: Option<Error>)
      requires Valid(exact)
      modifies this`coarse, this`rows, this`next
      ensures Valid(exact)
      ensures failure == if user in old(coarse) && role in roles then None else Some(NotFound)
      ensures View() == if failure.None? then Assigned(old(View()), user, role) else old(View())
    {
      if user !in coarse || role !in roles { return Some(NotFound); }
      hide RowsOf, AllInSync;
      if RowsOf(rows, user, role) != {} { return None; }
      WithRowKeeps(View(), user, role, exact);
      rows := rows[next := Membership(user, role)];
      next := next + 1;
      if roles[role] != "User" { coarse := coarse[user := Admin]; }
      failure := None;
      assert View() == WithRow(old(View()), user, role, IsPlain(roles, role));
      hide Tables;
    }

    method UnassignRole(user: UserId, role: RoleId, ghost exact: bool) returns (failure: Option<Error>)
      requires Valid(exact)
      modifies this`coarse, this`rows
      ensures Valid(exact)
      ensures var spec := Unassigned(old(View()), user, role);
        && failure == (if user !in old(coarse) || role !in roles then Some(NotFound) else if spec.Err? then Some(spec.error) else None)
        && View() == if failure.None? then spec.value else old(View())
    {
      if user !in coarse || role !in roles { return Some(NotFound); }
      var held := RowsOf(rows, user, role);
      if held == {} {
        assert rows - held == rows;
        return None;
      }
      ghost var before := View();
      if roles[role] == "User" {
        WithoutRowsKeeps(before, user, held, false, exact) by {
          assert forall r :: r in AdminRows(before, user) ==> r !in held;
        }
        rows := rows - held;
        return None;
      }
      var left := AdminRows(Committed(coarse, roles, rows - held, next), user);
      if |left| > 1 { return Some(ManyRows); }
      assert left == AdminRows(before, user) - held;
      EmptyDifference(AdminRows(before, user), held);
      WithoutRowsKeeps(before, user, held, left == {}, exact);
      hide Tables, AllInSync, RowsOf, AdminRows;
      rows := rows - held;
      if left == {} { coarse := coarse[user := Plain]; }
      assert View() == WithoutRows(before, user, held, left == {});
      failure := None;
    }

    method RevokeSessions(user: UserId, now: nat)
      modifies this`sessions
      ensures sessions == RevokedFor(old(sessions), user, now)
      ensures sessions.Keys == old(sessions).Keys && forall s :: s in sessions ==>
        if sessions[s].user == user then sessions[s].revokedAt.Some? && (old(sessions)[s].revokedAt.Some? ==> sessions[s] == old(sessions)[s])
        else sessions[s] == old(sessions)[s]
    {
      var live := set s | s in sessions && sessions[s].user == user && sessions[s].revokedAt.None?;
      while live != {}
        invariant sessions.Keys == old(sessions).Keys
        invariant live <= set s | s in old(sessions) && old(sessions)[s].user == user && old(sessions)[s].revokedAt.None?
        invariant forall s :: s in sessions ==>
          if s in live then sessions[s] == old(sessions)[s] else sessions[s] == RevokedFor(old(sessions), user, now)[s]
        decreases |live|
      {
        var s :| s in live;
        sessions := sessions[s := sessions[s].(revokedAt := Some(now))];
        live := live - {s};
      }
    }

    method DeleteRows(gone: set<RowId>)
      modifies this`rows
      ensures rows == old(rows) - gone
    {
      var left := gone;
      ghost var done: set<RowId> := {};
      assert rows - {} == rows;
      while left != {}
        invariant done !! left && done + left == gone && rows == old(rows) - done
        decreases |left|
      {
        var r :| r in left;
        rows := rows - {r};
        left := left - {r};
        done := done + {r};
      }
      assert done == gone;
    }

    /** With no assignment coming in between, anonymizing leaves no membership, no live session and no admin entry. */
    method AnonymizeUser(user: UserId, now: nat, ghost exact: bool)
      requires Valid(exact) && user in coarse
      modifies this`coarse, this`rows, this`sessions
      ensures Valid(exact)
      ensures View() == Anonymized(old(View()), user, AllRowsOf(old(rows), user))
      ensures AllRowsOf(rows, user) == {}
      ensures sessions == RevokedFor(old(sessions), user, now)
      ensures sessions.Keys == old(sessions).Keys && forall s :: s in sessions ==>
        if sessions[s].user == user then sessions[s].revokedAt.Some? && (old(sessions)[s].revokedAt.Some? ==> sessions[s] == old(sessions)[s])
        else sessions[s] == old(sessions)[s]
    {
      var seen := AllRowsOf(rows, user);
      WithoutRowsKeeps(View(), user, seen, true, exact);
      hide Tables, AllInSync, RevokedFor;
      RevokeSessions(user, now);
      DeleteRows(seen);
      coarse := coarse[user := Plain];
      assert View() == WithoutRows(old(View()), user, seen, true);
    }
  }

  /** Taking back what was just assigned restores everything but the row counter. */
  lemma AssignThenUnassign(c: Committed, user: UserId, role: RoleId)
    requires Tables(c) && AllInSync(c, true) && user in c.coarse && role in c.roles
    requires RowsOf(c.rows, user, role) == {} && |AdminRows(c, user)| <= 1
    ensures Unassigned(Assigned(c, user, role), user, role) == Ok(c.(next := c.next + 1))
  {
    var after := Assigned(c, user, role);
    assert InSync(c, user, true);
    var held := RowsOf(after.rows, user, role);
    assert held == {c.next};
    assert after.rows - held == c.rows;
    assert AdminRows(after.(rows := c.rows), user) == AdminRows(c, user);
    hide Tables, AllInSync;
    if !IsPlain(c.roles, role) {
      assert after.coarse == c.coarse[user := Admin];
      assert c.coarse[user] == if AdminRows(c, user) == {} then Plain else Admin;
      assert c.coarse == if AdminRows(c, user) == {} then after.coarse[user := Plain] else after.coarse;
    }
  }
}
