/** Runs of role changes from a freshly seeded portal that end out of step, or in a failure. */
module RoleScenarios {
  import opened Outcomes
  import opened Roles

  /** One user, with the roles named "User", "Auditor", "Reviewer" and "Editor" on offer. */
  function Seeded(): State {
    State(Committed(map[0 := Plain], map[0 := "User", 1 := "Auditor", 2 := "Reviewer", 3 := "Editor"], map[], 0), map[], map[])
  }

  lemma SeededIsInSync()
    ensures Inv(Seeded(), true)
  {
    var users: set<UserId> := {0};
    assert map[0 := Plain] == map u | u in users :: Plain;
    var roles := Seeded().c.roles;
    assert forall p :: p in roles ==> p == 0 || p == 1 || p == 2 || p == 3;
    assert roles[0][0] == 'U' && roles[1][0] == 'A' && roles[2][0] == 'R' && roles[3][0] == 'E';
    SeededSatisfiesInv(users, roles, 0);
  }

  /** An uninterrupted assignment, by transaction `t`. */
  function AssignSteps(t: TxId, user: UserId, role: RoleId): seq<Event> {
    [BeginAssign(t, user, role), ReadExisting(t), CommitAssign(t)]
  }

  lemma {:induction false} RunsJoin(s: State, first: seq<Event>, next: seq<Event>)
    ensures Run(s, first + next) == Run(Run(s, first), next)
    decreases |first|
  {
    hide Step;
    if first == [] {
      assert first + next == next;
    } else {
      assert (first + next)[1..] == first[1..] + next;
      RunsJoin(Step(s, first[0]), first[1..], next);
    }
  }

  lemma ThreeSteps(s: State, events: seq<Event>)
    requires |events| == 3
    ensures Run(s, events) == Step(Step(Step(s, events[0]), events[1]), events[2])
  {
    hide Step;
    var rest, last := events[1..], events[2..];
    assert rest[1..] == last && last[1..] == [] && rest[0] == events[1] && last[0] == events[2];
    assert Run(s, events) == Run(Step(s, events[0]), rest);
    assert Run(Step(s, events[0]), rest) == Run(Step(Step(s, events[0]), events[1]), last);
    assert Run(Step(Step(s, events[0]), events[1]), last) == Run(Step(Step(Step(s, events[0]), events[1]), events[2]), []);
  }

  /** Left to itself an assignment does what it says. */
  lemma AssignmentRuns(s: State, t: TxId, user: UserId, role: RoleId)
    requires t !in s.txs && user in s.c.coarse && role in s.c.roles && user !in s.locks && RowsOf(s.c.rows, user, role) == {}
    requires forall u :: u in s.locks ==> s.locks[u] != t
    ensures Run(s, AssignSteps(t, user, role)) == s.(c := WithRow(s.c, user, role, IsPlain(s.c.roles, role)))
  {
    hide RowsOf, AdminRows, IsPlain, WithRow;
    var events := AssignSteps(t, user, role);
    var s1 := s.(locks := s.locks[user := t], txs := s.txs[t := AssignLocked(user, role, IsPlain(s.c.roles, role))]);
    var s2 := s1.(txs := s1.txs[t := AssignReady(user, role, IsPlain(s.c.roles, role))]);
    assert Step(s, events[0]) == s1;
    assert Step(s1, events[1]) == s2;
    var s3 := s.(c := WithRow(s.c, user, role, IsPlain(s.c.roles, role)));
    assert Ended(s2.(c := s3.c), t) == s3;
    assert Step(s2, events[2]) == s3;
    hide Step;
    ThreeSteps(s, events);
  }

  function One(): Committed {
    Seeded().c.(coarse := map[0 := Admin], rows := map[0 := Membership(0, 1)], next := 1)
  }

  lemma FirstAssignment()
    ensures RowsOf(Seeded().c.rows, 0, 1) == {} && WithRow(Seeded().c, 0, 1, IsPlain(Seeded().c.roles, 1)) == One()
    ensures AdminRows(One(), 0) == {0}
  {
  }

  /** The anonymization reads, an assignment commits, the anonymization commits: coarse role "user", holding "Auditor". */
  lemma AnonymizedAndHolding()
    ensures var race := [BeginAnonymize(7, 0)] + AssignSteps(8, 0, 1) + [CommitAnonymize(7)];
      Inv(Seeded(), true) && Run(Seeded(), race).c.coarse == map[0 := Plain] && AdminRows(Run(Seeded(), race).c, 0) == {0}
  {
    SeededIsInSync();
    FirstAssignment();
    hide Inv;
    var begun := Seeded().(txs := map[7 := Anonymizing(0, {})]);
    assert AllRowsOf(map[], 0) == {};
    OneStep(Seeded(), BeginAnonymize(7, 0));
    assert Step(Seeded(), BeginAnonymize(7, 0)) == begun;
    AssignmentRuns(begun, 8, 0, 1);
    var holding := begun.(c := One());
    OneStep(holding, CommitAnonymize(7));
    RunsJoin(Seeded(), [BeginAnonymize(7, 0)], AssignSteps(8, 0, 1));
    RunsJoin(Seeded(), [BeginAnonymize(7, 0)] + AssignSteps(8, 0, 1), [CommitAnonymize(7)]);
    hide Run, AssignSteps, Seeded, One;
    AnonymizedOverRead(holding);
  }

  lemma OneStep(s: State, e: Event)
    ensures Run(s, [e]) == Step(s, e)
  {
    hide Step;
    assert [e][1..] == [];
  }

  lemma AnonymizedOverRead(s: State)
    requires s.c == One() && s.txs == map[7 := Anonymizing(0, {})] && s.locks == map[]
    ensures var after := Step(s, CommitAnonymize(7)).c; after.coarse == map[0 := Plain] && AdminRows(after, 0) == {0}
  {
    assert One().rows - {} == One().rows;
  }

  // ---------------------------------------------------------------- deleting someone's only admin-panel role

  /** "Auditor" assigned and then deleted: coarse role "admin", holding nothing. */
  lemma AdminHoldingNothing()
    ensures var events := AssignSteps(8, 0, 1) + [DeleteRole(1)];
      Run(Seeded(), events).c.coarse == map[0 := Admin] && AdminRows(Run(Seeded(), events).c, 0) == {}
  {
    FirstAssignment();
    AssignmentRuns(Seeded(), 8, 0, 1);
    var holding := Seeded().(c := One());
    RunsJoin(Seeded(), AssignSteps(8, 0, 1), [DeleteRole(1)]);
    OneStep(holding, DeleteRole(1));
    hide Run, AssignSteps, RowsOf, WithRow, IsPlain;
    AuditorDeleted();
  }

  lemma AuditorDeleted()
    ensures var after := Kept(One(), RoleDeleted(One(), 1)); after.coarse == map[0 := Admin] && AdminRows(after, 0) == {}
  {
    assert "Auditor"[1] == 'u' && "Administrator"[1] == 'd';
    assert "Auditor"[0] == 'A';
    var after := Kept(One(), RoleDeleted(One(), 1));
    assert after.rows == map[];
  }

  // ---------------------------------------------------------------- three roles, none of which can be taken away

  function Two(): Committed {
    One().(rows := map[0 := Membership(0, 1), 1 := Membership(0, 2)], next := 2)
  }

  function All(): Committed {
    One().(rows := map[0 := Membership(0, 1), 1 := Membership(0, 2), 2 := Membership(0, 3)], next := 3)
  }

  lemma FurtherAssignments()
    ensures RowsOf(One().rows, 0, 2) == {} && WithRow(One(), 0, 2, IsPlain(One().roles, 2)) == Two()
    ensures RowsOf(Two().rows, 0, 3) == {} && WithRow(Two(), 0, 3, IsPlain(Two().roles, 3)) == All()
  {
  }

  lemma AllThreeHeld()
    ensures RowsOf(All().rows, 0, 1) == {0} && AdminRows(All(), 0) == {0, 1, 2} && !IsPlain(All().roles, 1)
  {
    assert "Auditor" != "User";
  }

  function ThreeAssignments(): seq<Event> {
    AssignSteps(8, 0, 1) + AssignSteps(8, 0, 2) + AssignSteps(8, 0, 3)
  }

  function UnassignSteps(t: TxId, user: UserId, role: RoleId): seq<Event> {
    [BeginUnassign(t, user, role), ReadTarget(t), ReadRemaining(t)]
  }

  lemma ThreeAssignmentsRun()
    ensures Run(Seeded(), ThreeAssignments()) == Seeded().(c := All())
  {
    FirstAssignment();
    FurtherAssignments();
    hide RowsOf, WithRow, IsPlain;
    AssignmentRuns(Seeded(), 8, 0, 1);
    AssignmentRuns(Seeded().(c := One()), 8, 0, 2);
    AssignmentRuns(Seeded().(c := Two()), 8, 0, 3);
    RunsJoin(Seeded(), AssignSteps(8, 0, 1), AssignSteps(8, 0, 2));
    RunsJoin(Seeded(), AssignSteps(8, 0, 1) + AssignSteps(8, 0, 2), AssignSteps(8, 0, 3));
    hide Run, AssignSteps;
  }

  /** Three roles assigned, one to be taken back: the transaction is over after its recheck, and nothing has changed. */
  lemma ThreeRolesStay()
    ensures var events := ThreeAssignments() + UnassignSteps(9, 0, 1);
      Run(Seeded(), events) == Seeded().(c := All()) && Unassigned(All(), 0, 1) == Err(ManyRows)
  {
    ThreeAssignmentsRun();
    AllThreeHeld();
    var s := Seeded().(c := All());
    var events := UnassignSteps(9, 0, 1);
    RunsJoin(Seeded(), ThreeAssignments(), events);
    ThreeSteps(s, events);
    hide Run, ThreeAssignments, RowsOf, IsPlain;
    UnassignEnds(s);
    UnassigningFails();
  }

  lemma UnassigningFails()
    ensures Unassigned(All(), 0, 1) == Err(ManyRows)
  {
    AllThreeHeld();
    var left := AdminRows(All().(rows := All().rows - {0}), 0);
    assert left == {1, 2};
  }

  lemma UnassignEnds(s: State)
    requires s == Seeded().(c := All())
    ensures Step(Step(Step(s, BeginUnassign(9, 0, 1)), ReadTarget(9)), ReadRemaining(9)) == s
  {
    AllThreeHeld();
    hide RowsOf, AdminRows, IsPlain;
    var s1 := s.(locks := map[0 := 9], txs := map[9 := UnassignLocked(0, 1, false)]);
    assert Step(s, BeginUnassign(9, 0, 1)) == s1;
    var s2 := s1.(txs := map[9 := UnassignFound(0, 1, false, {0})]);
    assert Step(s1, ReadTarget(9)) == s2;
    assert {0, 1, 2} - {0} == {1, 2};
    assert Ended(s2, 9) == s;
  }
}
