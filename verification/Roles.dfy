/**
 A user's coarse role and the fine-grained memberships it must agree with, under concurrent transactions.

 `Committed` is what every other transaction can see. A transaction reads committed rows step by step,
 holding its user's row lock from its first step where the service takes one, and publishes its writes at
 once when it commits. Row ids are drawn from a counter, as fresh as the UUIDs they stand for.
 */
module Roles {
  import opened Outcomes

  type UserId = nat
  type RoleId = nat
  type RowId = nat
  type TxId = nat

  datatype Coarse = Plain | Admin
  datatype Membership = Membership(user: UserId, role: RoleId)

  datatype Committed = Committed(coarse: map<UserId, Coarse>, roles: map<RoleId, string>, rows: map<RowId, Membership>, next: nat)

  datatype Error = NotFound | Protected | NameTaken | ManyRows

  /** The role named "User", which grants no entry to the admin panel. */
  predicate IsPlain(roles: map<RoleId, string>, role: RoleId) {
    role in roles && roles[role] == "User"
  }

  function RowsOf(rows: map<RowId, Membership>, user: UserId, role: RoleId): set<RowId> {
    set r | r in rows && rows[r] == Membership(user, role)
  }

  function AllRowsOf(rows: map<RowId, Membership>, user: UserId): set<RowId> {
    set r | r in rows && rows[r].user == user
  }

  function AdminRows(c: Committed, user: UserId): set<RowId> {
    set r | r in c.rows && c.rows[r].user == user && !IsPlain(c.roles, c.rows[r].role)
  }

  // ---------------------------------------------------------------- each call as one atomic change

  function WithRow(c: Committed, user: UserId, role: RoleId, plain: bool): Committed {
    c.(rows := c.rows[c.next := Membership(user, role)], next := c.next + 1,
       coarse := if plain then c.coarse else c.coarse[user := Admin])
  }

  function WithoutRows(c: Committed, user: UserId, found: set<RowId>, demote: bool): Committed {
    c.(rows := c.rows - found, coarse := if demote then c.coarse[user := Plain] else c.coarse)
  }

  function Assigned(c: Committed, user: UserId, role: RoleId): Committed {
    if RowsOf(c.rows, user, role) != {} then c else WithRow(c, user, role, IsPlain(c.roles, role))
  }

  /** Fails, changing nothing, when two or more admin memberships would remain: the recheck expects at most one row. */
  function Unassigned(c: Committed, user: UserId, role: RoleId): Result<Committed, Error> {
    var rows := c.rows - RowsOf(c.rows, user, role);
    var left := AdminRows(c.(rows := rows), user);
    if RowsOf(c.rows, user, role) == {} || IsPlain(c.roles, role) then Ok(c.(rows := rows))
    else if |left| > 1 then Err(ManyRows)
    else Ok(c.(rows := rows, coarse := if left == {} then c.coarse[user := Plain] else c.coarse))
  }

  function Anonymized(c: Committed, user: UserId, seen: set<RowId>): Committed {
    c.(rows := c.rows - seen, coarse := c.coarse[user := Plain])
  }

  function Invited(c: Committed, user: UserId, role: RoleId): Result<Committed, Error> {
    if user in c.coarse then Err(NameTaken)
    else if role !in c.roles then Err(NotFound)
    else Ok(WithRow(c.(coarse := c.coarse[user := Plain]), user, role, IsPlain(c.roles, role)))
  }

  /** The roles that are seeded, and keep their names. */
  predicate IsSystemRole(name: string) {
    name == "Administrator" || name == "User" || name == "Data Manager" || name == "Reviewer" || name == "Content Editor"
  }

  function RoleCreated(c: Committed, role: RoleId, name: string): Result<Committed, Error> {
    if role in c.roles || exists other :: other in c.roles && c.roles[other] == name then Err(NameTaken)
    else Ok(c.(roles := c.roles[role := name]))
  }

  function RoleRenamed(c: Committed, role: RoleId, name: string): Result<Committed, Error> {
    if role !in c.roles then Err(NotFound)
    else if IsSystemRole(c.roles[role]) && name != c.roles[role] then Err(Protected)
    else if exists other :: other in c.roles && other != role && c.roles[other] == name then Err(NameTaken)
    else Ok(c.(roles := c.roles[role := name]))
  }

  function RoleDeleted(c: Committed, role: RoleId): Result<Committed, Error> {
    if role !in c.roles then Err(NotFound)
    else if IsSystemRole(c.roles[role]) then Err(Protected)
    else Ok(c.(roles := c.roles - {role}, rows := map r | r in c.rows && c.rows[r].role != role :: c.rows[r]))
  }

  function Kept(c: Committed, r: Result<Committed, Error>): Committed {
    if r.Ok? then r.value else c
  }

  // ---------------------------------------------------------------- transactions in progress

  datatype Phase =
    | AssignLocked(user: UserId, role: RoleId, plain: bool)
    | AssignReady(user: UserId, role: RoleId, plain: bool)
    | UnassignLocked(user: UserId, role: RoleId, plain: bool)
    | UnassignFound(user: UserId, role: RoleId, plain: bool, found: set<RowId>)
    | UnassignReady(user: UserId, role: RoleId, plain: bool, found: set<RowId>, demote: bool)
    | Anonymizing(user: UserId, seen: set<RowId>)

  datatype State = State(c: Committed, locks: map<UserId, TxId>, txs: map<TxId, Phase>)

  datatype Event =
    | BeginAssign(t: TxId, user: UserId, role: RoleId)
    | ReadExisting(t: TxId)
    | CommitAssign(t: TxId)
    | BeginUnassign(t: TxId, user: UserId, role: RoleId)
    | ReadTarget(t: TxId)
    | ReadRemaining(t: TxId)
    | CommitUnassign(t: TxId)
    | BeginAnonymize(t: TxId, user: UserId)
    | CommitAnonymize(t: TxId)
    | Abort(t: TxId)
    | Invite(user: UserId, role: RoleId)
    | CreateRole(role: RoleId, name: string)
    | RenameRole(role: RoleId, name: string)
    | DeleteRole(role: RoleId)

  /** The transaction is over and its lock, if it has one, released. */
  function Ended(s: State, t: TxId): State {
    s.(txs := s.txs - {t}, locks := map u | u in s.locks && s.locks[u] != t :: s.locks[u])
  }

  /** Taking a row lock that another transaction holds means waiting: the step does not happen yet. */
  function Locked(s: State, t: TxId, user: UserId, role: RoleId, phase: Phase): State {
    if t in s.txs || user !in s.c.coarse || role !in s.c.roles || user in s.locks then s
    else s.(locks := s.locks[user := t], txs := s.txs[t := phase])
  }

  function Step(s: State, e: Event): State {
    match e
    case BeginAssign(t, user, role) => Locked(s, t, user, role, AssignLocked(user, role, IsPlain(s.c.roles, role)))
    case BeginUnassign(t, user, role) => Locked(s, t, user, role, UnassignLocked(user, role, IsPlain(s.c.roles, role)))
    case BeginAnonymize(t, user) =>
      if t in s.txs || user !in s.c.coarse then s
      else s.(txs := s.txs[t := Anonymizing(user, AllRowsOf(s.c.rows, user))])
    case Invite(user, role) => s.(c := Kept(s.c, Invited(s.c, user, role)))
    case CreateRole(role, name) => s.(c := Kept(s.c, RoleCreated(s.c, role, name)))
    case RenameRole(role, name) => s.(c := Kept(s.c, RoleRenamed(s.c, role, name)))
    case DeleteRole(role) => s.(c := Kept(s.c, RoleDeleted(s.c, role)))
    case _ => if e.t in s.txs then Advance(s, e, s.txs[e.t]) else s
  }

  /** A transaction's next step, if `e` is the one that its phase calls for. */
  function Advance(s: State, e: Event, phase: Phase): State
    requires !e.BeginAssign? && !e.BeginUnassign? && !e.BeginAnonymize? && !e.Invite? && !e.CreateRole? && !e.RenameRole? && !e.DeleteRole?
  {
    if e.Abort? then Ended(s, e.t)
    else if e.ReadExisting? && phase.AssignLocked? then
      if RowsOf(s.c.rows, phase.user, phase.role) != {} then Ended(s, e.t)
      else s.(txs := s.txs[e.t := AssignReady(phase.user, phase.role, phase.plain)])
    else if e.CommitAssign? && phase.AssignReady? then
      if phase.role !in s.c.roles then Ended(s, e.t)
      else Ended(s.(c := WithRow(s.c, phase.user, phase.role, phase.plain)), e.t)
    else if e.ReadTarget? && phase.UnassignLocked? then
      var found := RowsOf(s.c.rows, phase.user, phase.role);
      if |found| != 1 then Ended(s, e.t)
      else s.(txs := s.txs[e.t := UnassignFound(phase.user, phase.role, phase.plain, found)])
    else if e.ReadRemaining? && phase.UnassignFound? then
      var left := AdminRows(s.c, phase.user) - phase.found;
      if !phase.plain && |left| > 1 then Ended(s, e.t)
      else s.(txs := s.txs[e.t := UnassignReady(phase.user, phase.role, phase.plain, phase.found, !phase.plain && left == {})])
    else if e.CommitUnassign? && phase.UnassignReady? then
      Ended(s.(c := WithoutRows(s.c, phase.user, phase.found, phase.demote)), e.t)
    else if e.CommitAnonymize? && phase.Anonymizing? && phase.user !in s.locks then
      Ended(s.(c := Anonymized(s.c, phase.user, phase.seen)), e.t)
    else s
  }

  // ---------------------------------------------------------------- what every reachable state satisfies

  /** Foreign keys, unique role names, and at most one membership row for each user and role. */
  predicate Tables(c: Committed) {
    && (forall r :: r in c.rows ==> r < c.next && c.rows[r].user in c.coarse && c.rows[r].role in c.roles)
    && (forall p, q :: p in c.rows && q in c.rows && c.rows[p] == c.rows[q] ==> p == q)
    && (forall p, q :: p in c.roles && q in c.roles && c.roles[p] == c.roles[q] ==> p == q)
    && (exists p :: p in c.roles && IsPlain(c.roles, p))
  }

  /** Holding an admin-panel role means being let into the admin panel; and, if `exact`, the other way round. */
  predicate InSync(c: Committed, user: UserId, exact: bool)
    requires user in c.coarse
  {
    && (AdminRows(c, user) != {} ==> c.coarse[user] == Admin)
    && (exact && c.coarse[user] == Admin ==> AdminRows(c, user) != {})
  }

  predicate AllInSync(c: Committed, exact: bool) {
    forall u :: u in c.coarse ==> InSync(c, u, exact)
  }

  /** What a transaction knows for as long as it holds its user's row lock. */
  predicate PhaseHolds(s: State, t: TxId, exact: bool)
    requires t in s.txs
  {
    var p := s.txs[t];
    && p.user in s.c.coarse
    && (p.Anonymizing? ==> forall r :: r in p.seen ==> r < s.c.next && (r in s.c.rows ==> s.c.rows[r].user == p.user))
    && (!p.Anonymizing? ==>
          && p.user in s.locks && s.locks[p.user] == t
          && p.plain == IsPlain(s.c.roles, p.role))
    && (p.AssignReady? ==> RowsOf(s.c.rows, p.user, p.role) == {})
    && (p.UnassignFound? || p.UnassignReady? ==>
          && (forall r :: r in p.found ==> r < s.c.next)
          && RowsOf(s.c.rows, p.user, p.role) <= p.found
          && (forall r :: r in p.found && r in s.c.rows ==> r in RowsOf(s.c.rows, p.user, p.role)))
    && (p.UnassignReady? ==>
          && (p.demote ==> !p.plain && AdminRows(s.c, p.user) <= p.found)
          && (exact && !p.plain && !p.demote ==> AdminRows(s.c, p.user) - p.found != {})
          && (exact && !p.plain ==> |AdminRows(s.c, p.user) - p.found| <= 1))
  }

  predicate Inv(s: State, exact: bool) {
    && Tables(s.c) && AllInSync(s.c, exact)
    && forall t :: t in s.txs ==> PhaseHolds(s, t, exact)
  }

  /** What `anonymize_user` read of its user's memberships still includes every admin-panel one. */
  predicate Covers(s: State, t: TxId) {
    t in s.txs && s.txs[t].Anonymizing? && s.txs[t].user !in s.locks ==> AdminRows(s.c, s.txs[t].user) <= s.txs[t].seen
  }

  /** A step that cannot put the two role systems out of step. */
  predicate Safe(s: State, e: Event, exact: bool) {
    && (e.CommitAnonymize? ==> Covers(s, e.t))
    && (exact ==> !e.DeleteRole?)
  }

  lemma Known(s: State, t: TxId, exact: bool)
    requires Inv(s, exact)
    ensures Tables(s.c) && AllInSync(s.c, exact) && (t in s.txs ==> PhaseHolds(s, t, exact))
  {
  }

  // ---------------------------------------------------------------- atomic changes keep it

  /** Nothing about `user`'s memberships, nor about which roles are plain, differs between the two states. */
  predicate Undisturbed(c: Committed, after: Committed, user: UserId) {
    && AllRowsOf(after.rows, user) == AllRowsOf(c.rows, user)
    && (forall r :: r in AllRowsOf(c.rows, user) ==> after.rows[r] == c.rows[r])
    && SamePlain(c.roles, after.roles)
    && c.roles.Keys <= after.roles.Keys
  }

  /** Users stay, and row ids are never used again. */
  predicate Later(c: Committed, after: Committed) {
    && c.next <= after.next && c.coarse.Keys <= after.coarse.Keys
    && (forall r :: r in after.rows && r < c.next ==> r in c.rows && after.rows[r] == c.rows[r])
  }

  predicate SamePlain(roles: map<RoleId, string>, after: map<RoleId, string>) {
    && (forall role :: role in roles ==> IsPlain(after, role) == IsPlain(roles, role))
    && (forall role :: role in after ==> IsPlain(after, role) == IsPlain(roles, role))
  }

  lemma UndisturbedRows(c: Committed, after: Committed, user: UserId, role: RoleId)
    requires Tables(c) && Undisturbed(c, after, user)
    ensures RowsOf(after.rows, user, role) == RowsOf(c.rows, user, role)
    ensures AdminRows(after, user) == AdminRows(c, user)
    ensures IsPlain(after.roles, role) == IsPlain(c.roles, role)
  {
    assert forall r :: r in RowsOf(after.rows, user, role) ==> r in AllRowsOf(after.rows, user);
    assert forall r :: r in AdminRows(after, user) ==> r in AllRowsOf(after.rows, user);
    assert forall r :: r in RowsOf(c.rows, user, role) ==> r in AllRowsOf(c.rows, user);
    assert forall r :: r in AdminRows(c, user) ==> r in AllRowsOf(c.rows, user);
  }

  lemma WithRowSync(c: Committed, user: UserId, role: RoleId, u: UserId, exact: bool)
    requires Tables(c) && AllInSync(c, exact) && user in c.coarse && u in c.coarse
    ensures var after := WithRow(c, user, role, IsPlain(c.roles, role)); u in after.coarse && InSync(after, u, exact)
  {
    var after := WithRow(c, user, role, IsPlain(c.roles, role));
    assert InSync(c, u, exact);
    assert AdminRows(after, u) == AdminRows(c, u) + if u != user || IsPlain(c.roles, role) then {} else {c.next};
  }

  lemma WithRowTables(c: Committed, user: UserId, role: RoleId)
    requires Tables(c) && user in c.coarse && role in c.roles && RowsOf(c.rows, user, role) == {}
    ensures Tables(WithRow(c, user, role, IsPlain(c.roles, role)))
  {
    assert forall r :: r in c.rows && c.rows[r] == Membership(user, role) ==> r in RowsOf(c.rows, user, role);
  }

  lemma WithRowKeeps(c: Committed, user: UserId, role: RoleId, exact: bool)
    requires Tables(c) && AllInSync(c, exact) && user in c.coarse && role in c.roles && RowsOf(c.rows, user, role) == {}
    ensures var after := WithRow(c, user, role, IsPlain(c.roles, role)); Tables(after) && AllInSync(after, exact)
  {
    forall u | u in c.coarse { WithRowSync(c, user, role, u, exact); }
    WithRowTables(c, user, role);
    hide InSync, RowsOf, Tables;
  }

  lemma WithRowUndisturbed(c: Committed, user: UserId, role: RoleId, plain: bool, u: UserId)
    requires Tables(c) && u != user
    ensures Undisturbed(c, WithRow(c, user, role, plain), u)
  {
    assert AllRowsOf(WithRow(c, user, role, plain).rows, u) == AllRowsOf(c.rows, u);
  }

  lemma WithoutRowsSync(c: Committed, user: UserId, gone: set<RowId>, demote: bool, u: UserId, exact: bool)
    requires Tables(c) && AllInSync(c, exact) && user in c.coarse && u in c.coarse
    requires forall r :: r in gone && r in c.rows ==> c.rows[r].user == user
    requires demote ==> AdminRows(c, user) <= gone
    requires exact && !demote && AdminRows(c, user) != {} ==> !(AdminRows(c, user) <= gone)
    ensures InSync(WithoutRows(c, user, gone, demote), u, exact)
  {
    assert InSync(c, u, exact);
    var left := AdminRows(c, u) - if u == user then gone else {};
    assert AdminRows(WithoutRows(c, user, gone, demote), u) == left;
    if u == user && !(AdminRows(c, u) <= gone) {
      var r :| r in AdminRows(c, u) && r !in gone;
      assert r in left;
    }
  }

  lemma WithoutRowsKeeps(c: Committed, user: UserId, gone: set<RowId>, demote: bool, exact: bool)
    requires Tables(c) && AllInSync(c, exact) && user in c.coarse
    requires forall r :: r in gone && r in c.rows ==> c.rows[r].user == user
    requires demote ==> AdminRows(c, user) <= gone
    requires exact && !demote && AdminRows(c, user) != {} ==> !(AdminRows(c, user) <= gone)
    ensures var after := WithoutRows(c, user, gone, demote); Tables(after) && AllInSync(after, exact)
  {
    forall u | u in c.coarse { WithoutRowsSync(c, user, gone, demote, u, exact); }
    hide InSync, AdminRows;
  }

  lemma WithoutRowsUndisturbed(c: Committed, user: UserId, gone: set<RowId>, demote: bool, u: UserId)
    requires Tables(c) && u != user && user in c.coarse
    requires forall r :: r in gone && r in c.rows ==> c.rows[r].user == user
    ensures Undisturbed(c, WithoutRows(c, user, gone, demote), u)
  {
    assert AllRowsOf(WithoutRows(c, user, gone, demote).rows, u) == AllRowsOf(c.rows, u);
  }

  lemma SameStanding(c: Committed, after: Committed, exact: bool)
    requires Tables(c) && AllInSync(c, exact)
    requires SamePlain(c.roles, after.roles) && after.rows == c.rows && after.coarse == c.coarse && after.next == c.next
    requires c.roles.Keys <= after.roles.Keys
    ensures AllInSync(after, exact) && forall u :: Undisturbed(c, after, u)
  {
    forall u | u in c.coarse ensures InSync(after, u, exact) {
      assert InSync(c, u, exact);
      assert AdminRows(after, u) == AdminRows(c, u);
    }
    forall u ensures Undisturbed(c, after, u) {}
  }

  lemma RoleCreatedKeeps(c: Committed, role: RoleId, name: string, exact: bool)
    requires Tables(c) && AllInSync(c, exact)
    ensures var after := Kept(c, RoleCreated(c, role, name));
      Tables(after) && AllInSync(after, exact) && forall u :: Undisturbed(c, after, u)
  {
    hide AllInSync, Undisturbed;
    var after := Kept(c, RoleCreated(c, role, name));
    assert SamePlain(c.roles, after.roles) && after.rows == c.rows;
    SameStanding(c, after, exact);
    var p :| p in c.roles && IsPlain(c.roles, p);
    assert IsPlain(after.roles, p);
  }

  lemma SamePlainNames(roles: map<RoleId, string>, role: RoleId, name: string)
    requires role in roles && (roles[role] == "User" ==> name == "User")
    requires forall other :: other in roles && other != role ==> roles[other] != name
    requires exists p :: p in roles && IsPlain(roles, p)
    ensures SamePlain(roles, roles[role := name])
  {
  }

  lemma RoleRenamedKeeps(c: Committed, role: RoleId, name: string, exact: bool)
    requires Tables(c) && AllInSync(c, exact)
    ensures var after := Kept(c, RoleRenamed(c, role, name));
      Tables(after) && AllInSync(after, exact) && forall u :: Undisturbed(c, after, u)
  {
    hide AllInSync, Undisturbed;
    var after := Kept(c, RoleRenamed(c, role, name));
    var p :| p in c.roles && IsPlain(c.roles, p);
    if RoleRenamed(c, role, name).Ok? { SamePlainNames(c.roles, role, name); }
    hide IsSystemRole;
    assert IsPlain(after.roles, p);
    SameStanding(c, after, exact);
  }

  lemma RoleDeletedKeeps(c: Committed, role: RoleId)
    requires Tables(c) && AllInSync(c, false)
    ensures var after := Kept(c, RoleDeleted(c, role));
      Tables(after) && AllInSync(after, false)
  {
    var after := Kept(c, RoleDeleted(c, role));
    var p :| p in c.roles && IsPlain(c.roles, p);
    assert IsPlain(after.roles, p);
    forall u | u in c.coarse ensures InSync(after, u, false) {
      assert InSync(c, u, false);
      assert AdminRows(after, u) <= AdminRows(c, u);
    }
  }

  lemma NewUserInSync(c: Committed, user: UserId, exact: bool)
    requires Tables(c) && AllInSync(c, exact) && user !in c.coarse
    ensures var added := c.(coarse := c.coarse[user := Plain]); Tables(added) && AllInSync(added, exact)
  {
    var added := c.(coarse := c.coarse[user := Plain]);
    forall u | u in added.coarse ensures InSync(added, u, exact) {
      assert u in c.coarse ==> InSync(c, u, exact);
      assert AdminRows(added, u) == AdminRows(c, u);
      assert u == user ==> AdminRows(c, u) == {};
    }
  }

  lemma InvitedKeeps(c: Committed, user: UserId, role: RoleId, exact: bool)
    requires Tables(c) && AllInSync(c, exact)
    ensures var after := Kept(c, Invited(c, user, role)); Tables(after) && AllInSync(after, exact)
    ensures forall u :: u in c.coarse ==> Undisturbed(c, Kept(c, Invited(c, user, role)), u)
  {
    hide AllInSync;
    if Invited(c, user, role).Ok? {
      var added := c.(coarse := c.coarse[user := Plain]);
      NewUserInSync(c, user, exact);
      assert RowsOf(added.rows, user, role) == {};
      WithRowKeeps(added, user, role, exact);
      forall u | u in c.coarse ensures Undisturbed(c, WithRow(added, user, role, IsPlain(c.roles, role)), u) {
        WithRowUndisturbed(added, user, role, IsPlain(c.roles, role), u);
      }
    }
  }

  // ---------------------------------------------------------------- steps keep it

  /** A transaction keeps what it knows as long as others leave its user's memberships alone. */
  lemma OthersHold(s: State, after: State, t: TxId, exact: bool)
    requires Tables(s.c) && t in s.txs && PhaseHolds(s, t, exact)
    requires t in after.txs && after.txs[t] == s.txs[t]
    requires Later(s.c, after.c)
    requires !s.txs[t].Anonymizing? ==> Undisturbed(s.c, after.c, s.txs[t].user)
    requires s.txs[t].user in s.locks && s.locks[s.txs[t].user] == t ==> s.txs[t].user in after.locks && after.locks[s.txs[t].user] == t
    ensures PhaseHolds(after, t, exact)
  {
    var p := s.txs[t];
    if !p.Anonymizing? {
      UndisturbedRows(s.c, after.c, p.user, p.role);
      hide RowsOf, AdminRows;
    }
  }

  lemma EndedKeeps(s: State, t: TxId, exact: bool)
    requires Tables(s.c) && AllInSync(s.c, exact)
    requires forall o :: o in s.txs && o != t ==> PhaseHolds(s, o, exact)
    ensures Inv(Ended(s, t), exact)
  {
    hide Tables, AllInSync, RowsOf, AdminRows, IsPlain;
    var after := Ended(s, t);
    forall o | o in after.txs ensures PhaseHolds(after, o, exact) {
      assert PhaseHolds(s, o, exact);
    }
  }

  /** A transaction commits a change to its own user's memberships, and ends. */
  lemma CommitKeeps(s: State, c: Committed, t: TxId, user: UserId, exact: bool)
    requires Inv(s, exact) && t in s.txs && s.txs[t].user == user
    requires Tables(c) && AllInSync(c, exact) && Later(s.c, c)
    requires forall u :: u in s.c.coarse && u != user ==> Undisturbed(s.c, c, u)
    requires user in s.locks ==> s.locks[user] == t
    ensures Inv(Ended(s.(c := c), t), exact)
  {
    hide Undisturbed, Later, AllInSync;
    forall o | o in s.txs && o != t ensures PhaseHolds(s.(c := c), o, exact) {
      assert PhaseHolds(s, o, exact);
      assert s.txs[o].user in s.c.coarse;
      OthersHold(s, s.(c := c), o, exact);
    }
    hide Tables, PhaseHolds;
    EndedKeeps(s.(c := c), t, exact);
  }

  /** A call on other tables or new users commits while this module's transactions are under way. */
  lemma OutsideKeeps(s: State, c: Committed, exact: bool)
    requires Inv(s, exact) && Tables(c) && AllInSync(c, exact) && Later(s.c, c)
    requires forall u :: u in s.c.coarse ==> Undisturbed(s.c, c, u)
    ensures Inv(s.(c := c), exact)
  {
    hide Undisturbed, Later, AllInSync;
    forall o | o in s.txs ensures PhaseHolds(s.(c := c), o, exact) {
      assert PhaseHolds(s, o, exact);
      assert s.txs[o].user in s.c.coarse;
      OthersHold(s, s.(c := c), o, exact);
    }
    hide Tables, PhaseHolds;
  }

  lemma DeleteHolds(s: State, role: RoleId, t: TxId)
    requires Tables(s.c) && t in s.txs && PhaseHolds(s, t, false)
    ensures PhaseHolds(s.(c := Kept(s.c, RoleDeleted(s.c, role))), t, false)
  {
    var c := Kept(s.c, RoleDeleted(s.c, role));
    var p := s.txs[t];
    assert AdminRows(c, p.user) <= AdminRows(s.c, p.user);
    assert !p.Anonymizing? ==> RowsOf(c.rows, p.user, p.role) <= RowsOf(s.c.rows, p.user, p.role);
    assert !p.Anonymizing? ==> forall r :: r in c.rows && r in RowsOf(s.c.rows, p.user, p.role) ==> r in RowsOf(c.rows, p.user, p.role);
  }

  lemma DeleteRoleKeeps(s: State, role: RoleId)
    requires Inv(s, false)
    ensures Inv(s.(c := Kept(s.c, RoleDeleted(s.c, role))), false)
  {
    RoleDeletedKeeps(s.c, role);
    hide Tables, AllInSync, PhaseHolds;
    forall o | o in s.txs ensures PhaseHolds(s.(c := Kept(s.c, RoleDeleted(s.c, role))), o, false) {
      DeleteHolds(s, role, o);
    }
  }

  lemma OutsideStepKeeps(s: State, e: Event, exact: bool)
    requires Inv(s, exact) && Safe(s, e, exact)
    requires e.Invite? || e.CreateRole? || e.RenameRole? || e.DeleteRole?
    ensures Inv(Step(s, e), exact)
  {
    hide Tables, AllInSync, Undisturbed, Later, PhaseHolds, Invited, RoleCreated, RoleRenamed, RoleDeleted;
    match e
    case Invite(user, role) =>
      InvitedKeeps(s.c, user, role, exact);
      InvitedLater(s.c, user, role);
      OutsideKeeps(s, Kept(s.c, Invited(s.c, user, role)), exact);
    case CreateRole(role, name) =>
      RoleCreatedKeeps(s.c, role, name, exact);
      RolesLater(s.c, role, name);
      OutsideKeeps(s, Kept(s.c, RoleCreated(s.c, role, name)), exact);
    case RenameRole(role, name) =>
      RoleRenamedKeeps(s.c, role, name, exact);
      RolesLater(s.c, role, name);
      OutsideKeeps(s, Kept(s.c, RoleRenamed(s.c, role, name)), exact);
    case DeleteRole(role) => DeleteRoleKeeps(s, role);
  }

  lemma InvitedLater(c: Committed, user: UserId, role: RoleId)
    ensures Later(c, Kept(c, Invited(c, user, role)))
  {
  }

  lemma RolesLater(c: Committed, role: RoleId, name: string)
    ensures Later(c, Kept(c, RoleCreated(c, role, name))) && Later(c, Kept(c, RoleRenamed(c, role, name)))
  {
  }

  lemma BeginKeeps(s: State, e: Event, exact: bool)
    requires Inv(s, exact) && (e.BeginAssign? || e.BeginUnassign? || e.BeginAnonymize?)
    ensures Inv(Step(s, e), exact)
  {
    hide Tables, AllInSync, IsPlain, AdminRows, RowsOf;
    var after := Step(s, e);
    assert e.BeginAnonymize? ==> forall r :: r in AllRowsOf(s.c.rows, e.user) ==> r in s.c.rows && r < s.c.next by { KnownRows(s.c); }
    forall o | o in after.txs ensures PhaseHolds(after, o, exact) {
      assert o in s.txs ==> PhaseHolds(s, o, exact);
    }
  }

  lemma KnownRows(c: Committed)
    requires Tables(c)
    ensures forall r :: r in c.rows ==> r < c.next
  {
  }

  /** A read changes no row and no other transaction. */
  lemma ReadKeeps(s: State, t: TxId, phase: Phase, exact: bool)
    requires Inv(s, exact) && PhaseHolds(s.(txs := s.txs[t := phase]), t, exact)
    ensures Inv(s.(txs := s.txs[t := phase]), exact)
  {
    hide Tables, AllInSync, IsPlain, AdminRows, RowsOf;
    forall o | o in s.txs && o != t ensures PhaseHolds(s.(txs := s.txs[t := phase]), o, exact) {
      assert PhaseHolds(s, o, exact);
    }
  }

  lemma AnyEndKeeps(s: State, t: TxId, exact: bool)
    requires Inv(s, exact)
    ensures Inv(Ended(s, t), exact)
  {
    hide Tables, AllInSync, PhaseHolds;
    EndedKeeps(s, t, exact);
  }

  lemma ReadStepKeeps(s: State, e: Event, exact: bool)
    requires Inv(s, exact) && (e.ReadExisting? || e.ReadTarget? || e.ReadRemaining? || e.Abort?)
    ensures Inv(Step(s, e), exact)
  {
    hide Inv, Tables, AllInSync, AdminRows, IsPlain;
    Known(s, e.t, exact);
    if e.t in s.txs {
      AnyEndKeeps(s, e.t, exact);
      var after := Step(s, e);
      if e.t in after.txs {
        assert e.ReadTarget? && s.txs[e.t].UnassignLocked? ==> forall r :: r in after.txs[e.t].found ==> r in s.c.rows && r < s.c.next by { KnownRows(s.c); }
        if after.txs[e.t].UnassignReady? {
          var admin, found := AdminRows(s.c, after.txs[e.t].user), after.txs[e.t].found;
          assert admin - found == {} ==> forall r :: r in admin ==> r !in admin - found;
        }
        assert PhaseHolds(after, e.t, exact);
        ReadKeeps(s, e.t, after.txs[e.t], exact);
      }
    }
  }

  // ---------------------------------------------------------------- commits keep it

  lemma CommitAssignKeeps(s: State, t: TxId, exact: bool)
    requires Inv(s, exact)
    ensures Inv(Step(s, CommitAssign(t)), exact)
  {
    hide Inv, RowsOf, AllInSync;
    Known(s, t, exact);
    AnyEndKeeps(s, t, exact);
    if t in s.txs && s.txs[t].AssignReady? && s.txs[t].role in s.c.roles {
      var p := s.txs[t];
      WithRowKeeps(s.c, p.user, p.role, exact);
      forall u | u != p.user { WithRowUndisturbed(s.c, p.user, p.role, p.plain, u); }
      CommitKeeps(s, WithRow(s.c, p.user, p.role, p.plain), t, p.user, exact);
    }
  }

  lemma CommitUnassignKeeps(s: State, t: TxId, exact: bool)
    requires Inv(s, exact)
    ensures Inv(Step(s, CommitUnassign(t)), exact)
  {
    hide Inv, AllInSync, Tables, AdminRows, Undisturbed;
    Known(s, t, exact);
    if t in s.txs && s.txs[t].UnassignReady? {
      var p := s.txs[t];
      PlainRowsAreNotAdminRows(s, t, exact);
      WithoutRowsKeeps(s.c, p.user, p.found, p.demote, exact);
      forall u | u != p.user { WithoutRowsUndisturbed(s.c, p.user, p.found, p.demote, u); }
      CommitKeeps(s, WithoutRows(s.c, p.user, p.found, p.demote), t, p.user, exact);
    }
  }

  lemma PlainRowsAreNotAdminRows(s: State, t: TxId, exact: bool)
    requires Inv(s, exact) && t in s.txs && s.txs[t].UnassignReady?
    ensures var p := s.txs[t];
      && (forall r :: r in p.found && r in s.c.rows ==> s.c.rows[r].user == p.user)
      && (exact && !p.demote && AdminRows(s.c, p.user) != {} ==> !(AdminRows(s.c, p.user) <= p.found))
  {
    var p := s.txs[t];
    assert PhaseHolds(s, t, exact);
    assert forall r :: r in p.found && r in s.c.rows ==> r in RowsOf(s.c.rows, p.user, p.role);
    if p.plain {
      assert forall r :: r in AdminRows(s.c, p.user) ==> r !in p.found;
    }
  }

  lemma CommitAnonymizeKeeps(s: State, t: TxId, exact: bool)
    requires Inv(s, exact) && Covers(s, t)
    ensures Inv(Step(s, CommitAnonymize(t)), exact)
  {
    hide Inv, AllInSync;
    Known(s, t, exact);
    if t in s.txs && s.txs[t].Anonymizing? && s.txs[t].user !in s.locks {
      var p := s.txs[t];
      hide Tables, AdminRows, Undisturbed;
      assert Anonymized(s.c, p.user, p.seen) == WithoutRows(s.c, p.user, p.seen, true);
      WithoutRowsKeeps(s.c, p.user, p.seen, true, exact);
      forall u | u != p.user { WithoutRowsUndisturbed(s.c, p.user, p.seen, true, u); }
      CommitKeeps(s, Anonymized(s.c, p.user, p.seen), t, p.user, exact);
    }
  }

  lemma StepKeepsInv(s: State, e: Event, exact: bool)
    requires Inv(s, exact) && Safe(s, e, exact)
    ensures Inv(Step(s, e), exact)
  {
    hide Inv, Step;
    match e
    case BeginAssign(_, _, _) => BeginKeeps(s, e, exact);
    case BeginUnassign(_, _, _) => BeginKeeps(s, e, exact);
    case BeginAnonymize(_, _) => BeginKeeps(s, e, exact);
    case CommitAssign(t) => CommitAssignKeeps(s, t, exact);
    case CommitUnassign(t) => CommitUnassignKeeps(s, t, exact);
    case CommitAnonymize(t) => CommitAnonymizeKeeps(s, t, exact);
    case Invite(_, _) => OutsideStepKeeps(s, e, exact);
    case CreateRole(_, _) => OutsideStepKeeps(s, e, exact);
    case RenameRole(_, _) => OutsideStepKeeps(s, e, exact);
    case DeleteRole(_) => OutsideStepKeeps(s, e, exact);
    case _ => ReadStepKeeps(s, e, exact);
  }

  // ---------------------------------------------------------------- runs

  /** Every step of the run is safe in the state it is taken in. */
  predicate SafeRun(s: State, events: seq<Event>, exact: bool)
    decreases |events|
  {
    events != [] ==> Safe(s, events[0], exact) && SafeRun(Step(s, events[0]), events[1..], exact)
  }

  function Run(s: State, events: seq<Event>): State
    decreases |events|
  {
    if events == [] then s else Run(Step(s, events[0]), events[1..])
  }

  /**
   Whatever the interleaving: after every safe run a user is let into the admin panel if (and, when no role
   was deleted, only if) the user holds a role other than "User", and no membership is recorded twice.
   */
  lemma {:induction false} RunKeepsInv(s: State, events: seq<Event>, exact: bool)
    requires Inv(s, exact) && SafeRun(s, events, exact)
    ensures Inv(Run(s, events), exact)
    decreases |events|
  {
    hide Inv, Step, Safe;
    if events != [] {
      StepKeepsInv(s, events[0], exact);
      RunKeepsInv(Step(s, events[0]), events[1..], exact);
    }
  }

  /** A freshly seeded portal: its roles, its users, no membership yet. */
  lemma SeededSatisfiesInv(users: set<UserId>, roles: map<RoleId, string>, user: RoleId)
    requires user in roles && roles[user] == "User"
    requires forall p, q :: p in roles && q in roles && roles[p] == roles[q] ==> p == q
    ensures Inv(State(Committed(map u | u in users :: Plain, roles, map[], 0), map[], map[]), true)
  {
    assert IsPlain(roles, user);
  }

  // ---------------------------------------------------------------- where it breaks, exactly

  /**
   `anonymize_user` takes no row lock, and deletes the memberships it read. It leaves the two role systems in
   step if and only if those include every admin-panel membership the user has by the time it commits.
   */
  lemma AnonymizingKeepsSyncExactly(s: State, t: TxId)
    requires Inv(s, false) && t in s.txs && s.txs[t].Anonymizing? && s.txs[t].user !in s.locks
    ensures AllInSync(Step(s, CommitAnonymize(t)).c, false) <==> AdminRows(s.c, s.txs[t].user) <= s.txs[t].seen
  {
    hide Inv, AllInSync;
    Known(s, t, false);
    hide PhaseHolds, AdminRows;
    if AllInSync(Anonymized(s.c, s.txs[t].user, s.txs[t].seen), false) {
      CommitKeepsOrBreaks(s.c, s.txs[t].user, s.txs[t].seen);
    }
    if AdminRows(s.c, s.txs[t].user) <= s.txs[t].seen {
      CommitAnonymizeKeeps(s, t, false);
      Known(Step(s, CommitAnonymize(t)), t, false);
    }
  }

  lemma CommitKeepsOrBreaks(c: Committed, user: UserId, seen: set<RowId>)
    requires Tables(c) && user in c.coarse && AllInSync(Anonymized(c, user, seen), false)
    ensures AdminRows(c, user) <= seen
  {
    var after := Anonymized(c, user, seen);
    assert InSync(after, user, false);
    assert forall r :: r in AdminRows(c, user) && r !in seen ==> r in AdminRows(after, user);
  }

  predicate AssignsAdminRole(s: State, e: Event, user: UserId) {
    && e.CommitAssign? && e.t in s.txs && s.txs[e.t].AssignReady? && s.txs[e.t].user == user
    && s.txs[e.t].role in s.c.roles && !s.txs[e.t].plain
  }

  /** It reads everything there is; and only an assignment to the same user, committed in between, adds to that. */
  lemma OnlyAnAssignmentOutdatesTheRead(s: State, e: Event, t: TxId)
    requires Inv(s, false) && t in s.txs && s.txs[t].Anonymizing? && AdminRows(s.c, s.txs[t].user) <= s.txs[t].seen
    ensures AdminRows(Step(s, e).c, s.txs[t].user) <= s.txs[t].seen <==> !AssignsAdminRole(s, e, s.txs[t].user)
  {
    hide Inv;
    Known(s, t, false);
    var user, seen := s.txs[t].user, s.txs[t].seen;
    if e.CommitAssign? && e.t in s.txs && s.txs[e.t].AssignReady? && s.txs[e.t].role in s.c.roles {
      Known(s, e.t, false);
      var p := s.txs[e.t];
      AdminRowsWithOneMore(s.c, p.user, p.role, user);
      assert PhaseHolds(s, t, false) && s.c.next !in seen;
    } else {
      OtherStepsAddNoAdminRow(s, e, user);
      hide Step, AdminRows, PhaseHolds, Tables, AllInSync;
    }
  }

  lemma AdminRowsWithOneMore(c: Committed, user: UserId, role: RoleId, u: UserId)
    requires Tables(c) && role in c.roles
    ensures AdminRows(WithRow(c, user, role, IsPlain(c.roles, role)), u)
         == AdminRows(c, u) + if u != user || IsPlain(c.roles, role) then {} else {c.next}
  {
  }

  lemma OtherStepsAddNoAdminRow(s: State, e: Event, user: UserId)
    requires Inv(s, false) && user in s.c.coarse
    requires !(e.CommitAssign? && e.t in s.txs && s.txs[e.t].AssignReady? && s.txs[e.t].role in s.c.roles)
    ensures AdminRows(Step(s, e).c, user) <= AdminRows(s.c, user)
  {
    hide Inv, AdminRows;
    if e.Invite? || e.CreateRole? || e.RenameRole? || e.DeleteRole? {
      OutsideStepsAddNoAdminRow(s, e, user);
      hide Step;
    } else if e.CommitUnassign? && e.t in s.txs && s.txs[e.t].UnassignReady? {
      FewerAdminRows(s.c, user, s.txs[e.t].found, 0);
    } else if e.CommitAnonymize? && e.t in s.txs && s.txs[e.t].Anonymizing? {
      FewerAdminRows(s.c, user, s.txs[e.t].seen, 0);
    }
  }

  lemma OutsideStepsAddNoAdminRow(s: State, e: Event, user: UserId)
    requires Inv(s, false) && user in s.c.coarse && (e.Invite? || e.CreateRole? || e.RenameRole? || e.DeleteRole?)
    ensures AdminRows(Step(s, e).c, user) <= AdminRows(s.c, user)
  {
    hide Inv, AllInSync, PhaseHolds, Invited, RoleCreated, RoleRenamed, Undisturbed, Tables;
    Known(s, 0, false);
    match e
    case Invite(invited, role) => InvitedKeeps(s.c, invited, role, false); SameAdminRows(s.c, Step(s, e).c, user);
    case CreateRole(role, name) => RoleCreatedKeeps(s.c, role, name, false); SameAdminRows(s.c, Step(s, e).c, user);
    case RenameRole(role, name) => RoleRenamedKeeps(s.c, role, name, false); SameAdminRows(s.c, Step(s, e).c, user);
    case DeleteRole(role) => FewerAdminRows(s.c, user, {}, role);
  }

  lemma SameAdminRows(c: Committed, after: Committed, user: UserId)
    requires Tables(c) && Undisturbed(c, after, user)
    ensures AdminRows(after, user) == AdminRows(c, user)
  {
    UndisturbedRows(c, after, user, 0);
  }

  lemma FewerAdminRows(c: Committed, user: UserId, gone: set<RowId>, role: RoleId)
    ensures forall coarse :: AdminRows(c.(rows := c.rows - gone, coarse := coarse), user) <= AdminRows(c, user)
    ensures AdminRows(Kept(c, RoleDeleted(c, role)), user) <= AdminRows(c, user)
  {
  }

  /** Every anonymization under way has read all the admin-panel memberships there are to delete. */
  predicate AllReadsCover(s: State) {
    forall t :: t in s.txs && s.txs[t].Anonymizing? ==> AdminRows(s.c, s.txs[t].user) <= s.txs[t].seen
  }

  /** An admin-panel role is assigned to a user whose anonymization is under way. */
  predicate Races(s: State, e: Event) {
    exists t :: t in s.txs && s.txs[t].Anonymizing? && AssignsAdminRole(s, e, s.txs[t].user)
  }

  predicate RaceFree(s: State, events: seq<Event>)
    decreases |events|
  {
    events != [] ==> !Races(s, events[0]) && RaceFree(Step(s, events[0]), events[1..])
  }

  lemma FreshReadCovers(c: Committed, user: UserId)
    ensures AdminRows(c, user) <= AllRowsOf(c.rows, user)
  {
  }

  lemma OldOrFresh(s: State, e: Event, t: TxId)
    requires t in Step(s, e).txs && Step(s, e).txs[t].Anonymizing?
    ensures (t in s.txs && s.txs[t] == Step(s, e).txs[t])
         || (e.BeginAnonymize? && Step(s, e).c == s.c && Step(s, e).txs[t] == Anonymizing(e.user, AllRowsOf(s.c.rows, e.user)))
  {
    hide RowsOf, AdminRows, AllRowsOf, IsPlain, Invited, RoleCreated, RoleRenamed, RoleDeleted;
  }

  lemma ReadsStayCovering(s: State, e: Event)
    requires Inv(s, false) && AllReadsCover(s) && !Races(s, e)
    ensures AllReadsCover(Step(s, e))
  {
    hide Inv, Step, AdminRows, AllRowsOf, AssignsAdminRole;
    var after := Step(s, e);
    forall t | t in after.txs && after.txs[t].Anonymizing? ensures AdminRows(after.c, after.txs[t].user) <= after.txs[t].seen {
      OldOrFresh(s, e, t);
      if t in s.txs && s.txs[t] == after.txs[t] {
        OnlyAnAssignmentOutdatesTheRead(s, e, t);
      } else {
        FreshReadCovers(s.c, e.user);
      }
    }
  }

  lemma CoveringIsSafe(s: State, e: Event, exact: bool)
    requires AllReadsCover(s) && (exact ==> !e.DeleteRole?)
    ensures Safe(s, e, exact)
  {
  }

  /**
   So with no assignment racing an anonymization, and whatever else is interleaved, the two role systems agree
   after every run: exactly, as long as no role is deleted.
   */
  lemma {:induction false} RaceFreeRunsStayInSync(s: State, events: seq<Event>, exact: bool)
    requires Inv(s, exact) && AllReadsCover(s) && RaceFree(s, events)
    requires exact ==> forall i :: 0 <= i < |events| ==> !events[i].DeleteRole?
    ensures Inv(Run(s, events), exact)
    decreases |events|
  {
    hide Inv, Step, Safe, Races, AllReadsCover;
    if events != [] {
      CoveringIsSafe(s, events[0], exact);
      StepKeepsInv(s, events[0], exact);
      WeakerInv(s, exact);
      ReadsStayCovering(s, events[0]);
      RaceFreeRunsStayInSync(Step(s, events[0]), events[1..], exact);
    }
  }

  lemma WeakerInv(s: State, exact: bool)
    requires Inv(s, exact)
    ensures Inv(s, false)
  {
    hide Tables, RowsOf, AdminRows, IsPlain;
  }

  /** Deleting a role demotes nobody: the two systems agree afterwards unless that was someone's only admin-panel role. */
  lemma DeletingKeepsSyncExactly(c: Committed, role: RoleId)
    requires Tables(c) && AllInSync(c, true) && RoleDeleted(c, role).Ok?
    ensures AllInSync(RoleDeleted(c, role).value, true)
            <==> forall u :: u in c.coarse && AdminRows(c, u) != {} ==> !(AdminRows(c, u) <= RowsOf(c.rows, u, role))
  {
    hide IsSystemRole, InSync, AdminRows, RowsOf, Tables;
    var after := RoleDeleted(c, role).value;
    forall u | u in c.coarse
      ensures InSync(after, u, true) <==> (AdminRows(c, u) != {} ==> !(AdminRows(c, u) <= RowsOf(c.rows, u, role)))
    {
      DeletingKeepsOneInSync(c, role, u);
    }
  }

  lemma DeletingKeepsOneInSync(c: Committed, role: RoleId, u: UserId)
    requires Tables(c) && u in c.coarse && InSync(c, u, true) && RoleDeleted(c, role).Ok?
    ensures InSync(RoleDeleted(c, role).value, u, true)
            <==> (AdminRows(c, u) != {} ==> !(AdminRows(c, u) <= RowsOf(c.rows, u, role)))
  {
    hide IsSystemRole;
    var after := RoleDeleted(c, role).value;
    assert AdminRows(after, u) == AdminRows(c, u) - RowsOf(c.rows, u, role);
    hide AdminRows, RowsOf, Tables;
    EmptyDifference(AdminRows(c, u), RowsOf(c.rows, u, role));
  }

  lemma EmptyDifference(a: set<RowId>, b: set<RowId>)
    ensures a - b == {} <==> a <= b
  {
    assert forall r :: r in a && r !in b ==> r in a - b;
  }

  /** Taking an admin-panel role away fails exactly when the user holds three or more of them. */
  lemma UnassigningFailsExactly(c: Committed, user: UserId, role: RoleId)
    requires Tables(c)
    ensures Unassigned(c, user, role).Err?
            <==> !IsPlain(c.roles, role) && RowsOf(c.rows, user, role) != {} && |AdminRows(c, user)| >= 3
  {
    var held := RowsOf(c.rows, user, role);
    if held != {} && !IsPlain(c.roles, role) {
      var r :| r in held;
      assert held == {r} by { AtMostOneRow(c, user, role, r); }
      assert AdminRows(c.(rows := c.rows - held), user) == AdminRows(c, user) - {r};
      assert r in AdminRows(c, user);
    }
  }

  lemma AtMostOneRow(c: Committed, user: UserId, role: RoleId, r: RowId)
    requires Tables(c) && r in RowsOf(c.rows, user, role)
    ensures RowsOf(c.rows, user, role) == {r}
  {
    assert forall q :: q in RowsOf(c.rows, user, role) ==> q == r;
  }

  // ---------------------------------------------------------------- what the calls on roles do

  predicate MembershipsSame(c: Committed, after: Committed) {
    after.rows == c.rows && after.coarse == c.coarse && after.next == c.next
  }

  /** A new role takes a name no role has. */
  lemma CreationExactly(c: Committed, role: RoleId, name: string)
    requires role !in c.roles
    ensures var r := RoleCreated(c, role, name);
      && (r.Ok? <==> forall other :: other in c.roles ==> c.roles[other] != name)
      && (r.Ok? ==> r.value.roles == c.roles[role := name] && MembershipsSame(c, r.value))
  {
  }

  /** The five seeded roles keep their names; any other takes any name that is free. */
  lemma RenamingExactly(c: Committed, role: RoleId, name: string)
    requires role in c.roles
    ensures var r := RoleRenamed(c, role, name);
      && (r.Ok? <==>
           && (c.roles[role] in {"Administrator", "User", "Data Manager", "Reviewer", "Content Editor"} ==> name == c.roles[role])
           && forall other :: other in c.roles && other != role ==> c.roles[other] != name)
      && (r.Ok? ==> r.value.roles == c.roles[role := name] && MembershipsSame(c, r.value))
  {
  }

  /** Deleting a role that is not seeded takes its memberships along, and nothing else. */
  lemma DeletionExactly(c: Committed, role: RoleId)
    requires role in c.roles
    ensures var r := RoleDeleted(c, role);
      && (r.Ok? <==> c.roles[role] !in {"Administrator", "User", "Data Manager", "Reviewer", "Content Editor"})
      && (r.Ok? ==>
           && r.value.roles.Keys == c.roles.Keys - {role} && (forall other :: other in r.value.roles ==> r.value.roles[other] == c.roles[other])
           && (forall row :: row in r.value.rows <==> row in c.rows && c.rows[row].role != role)
           && (forall row :: row in r.value.rows ==> r.value.rows[row] == c.rows[row])
           && r.value.coarse == c.coarse && r.value.next == c.next)
  {
  }

  /** An invitation adds one user, holding the one role it names, and admin exactly if that is not "User". */
  lemma InvitationExactly(c: Committed, user: UserId, role: RoleId)
    requires Tables(c)
    ensures var r := Invited(c, user, role);
      && (r.Ok? <==> user !in c.coarse && role in c.roles)
      && (r.Ok? ==>
           && r.value.coarse == c.coarse[user := if c.roles[role] == "User" then Plain else Admin]
           && AllRowsOf(r.value.rows, user) == {c.next} && r.value.rows == c.rows[c.next := Membership(user, role)]
           && r.value.roles == c.roles)
  {
  }

  /** Assigning gives the user the role, once, and keeps every other membership. */
  lemma AssignmentExactly(c: Committed, user: UserId, role: RoleId)
    requires Tables(c) && user in c.coarse && role in c.roles
    ensures var after := Assigned(c, user, role);
      && |RowsOf(after.rows, user, role)| == 1
      && (forall row :: row in c.rows ==> row in after.rows && after.rows[row] == c.rows[row])
      && (forall row :: row in after.rows && row !in c.rows ==> after.rows[row] == Membership(user, role) && RowsOf(c.rows, user, role) == {})
      && after.coarse.Keys == c.coarse.Keys && (forall u :: u in c.coarse && u != user ==> after.coarse[u] == c.coarse[u])
      && (c.roles[role] != "User" && RowsOf(c.rows, user, role) == {} ==> after.coarse[user] == Admin)
      && (c.roles[role] == "User" ==> after.coarse == c.coarse)
      && after.roles == c.roles
  {
    var after := Assigned(c, user, role);
    if r :| r in RowsOf(c.rows, user, role) {
      AtMostOneRow(c, user, role, r);
    } else {
      assert RowsOf(after.rows, user, role) == {c.next};
    }
  }

  /** Unassigning takes that one membership, demotes exactly when no admin-panel role is left, and keeps every other. */
  lemma UnassignmentExactly(c: Committed, user: UserId, role: RoleId)
    requires Tables(c) && user in c.coarse && role in c.roles && Unassigned(c, user, role).Ok?
    ensures var after := Unassigned(c, user, role).value;
      && RowsOf(after.rows, user, role) == {}
      && (forall row :: row in after.rows <==> row in c.rows && c.rows[row] != Membership(user, role))
      && (forall row :: row in after.rows ==> after.rows[row] == c.rows[row])
      && after.coarse == (if c.roles[role] != "User" && RowsOf(c.rows, user, role) != {} && AdminRows(after, user) == {}
                          then c.coarse[user := Plain] else c.coarse)
      && after.roles == c.roles && after.next == c.next
  {
    var after := Unassigned(c, user, role).value;
    assert AdminRows(after, user) == AdminRows(c.(rows := after.rows), user);
  }

  // ---------------------------------------------------------------- commits are atomic calls

  /** Under the lock, the steps of an assignment add up to one atomic assignment at the time it commits. */
  lemma AssignmentIsAtomic(s: State, t: TxId)
    requires Inv(s, false) && t in s.txs && s.txs[t].AssignReady? && s.txs[t].role in s.c.roles
    ensures Step(s, CommitAssign(t)).c == Assigned(s.c, s.txs[t].user, s.txs[t].role)
  {
    assert PhaseHolds(s, t, false);
    hide RowsOf, Tables, AllInSync;
  }

  /** And the steps of an unassignment to one atomic unassignment, however many transactions on other users came between. */
  lemma UnassignmentIsAtomic(s: State, t: TxId)
    requires Inv(s, true) && t in s.txs && s.txs[t].UnassignReady?
    ensures Unassigned(s.c, s.txs[t].user, s.txs[t].role) == Ok(Step(s, CommitUnassign(t)).c)
  {
    hide Inv, Tables, Unassigned, RowsOf, AdminRows, IsPlain, WithoutRows;
    Known(s, t, true);
    var p := s.txs[t];
    assert InSync(s.c, p.user, true);
    hide AllInSync, InSync;
    WithoutRowsIsUnassigned(s.c, p.user, p.role, p.found, p.demote);
  }

  lemma WithoutRowsIsUnassigned(c: Committed, user: UserId, role: RoleId, found: set<RowId>, demote: bool)
    requires user in c.coarse && InSync(c, user, true)
    requires RowsOf(c.rows, user, role) <= found && forall r :: r in found && r in c.rows ==> r in RowsOf(c.rows, user, role)
    requires demote ==> !IsPlain(c.roles, role) && AdminRows(c, user) <= found
    requires !IsPlain(c.roles, role) && !demote ==> AdminRows(c, user) - found != {}
    requires !IsPlain(c.roles, role) ==> |AdminRows(c, user) - found| <= 1
    ensures Unassigned(c, user, role) == Ok(WithoutRows(c, user, found, demote))
  {
    var held := RowsOf(c.rows, user, role);
    assert c.rows - held == c.rows - found;
    assert AdminRows(c.(rows := c.rows - held), user) == AdminRows(c, user) - found;
    if held == {} && demote {
      assert AdminRows(c, user) == {};
      assert c.coarse[user := Plain] == c.coarse;
    }
  }
}
