/**
 Sessions and their revocation.

 A refresh token is an unforgeable record of the session it was issued for; one id stands for a session's
 `sid` and its token's `jti`, as unique as the UUIDs they are.
 */
module Sessions {
  import opened Outcomes

  type UserId = nat
  type SessionId = nat

  const TOKEN_LIFETIME := 14 * 24 * 60 * 60 * 1000000

  datatype User = User(password: string, suspended: bool)
  datatype Session = Session(user: UserId, revokedAt: Option<int>)
  datatype Token = Token(user: UserId, session: SessionId, expires: int)

  datatype State = State(users: map<UserId, User>, sessions: map<SessionId, Session>, next: SessionId)

  datatype Error = Unauthorized | Unavailable | WrongPassword | NotFound

  datatype Call =
    | IssueTokens(user: UserId)
    | Logout(session: SessionId, now: int)
    | RevokeSession(user: UserId, session: SessionId, now: int)
    | ChangePassword(user: UserId, current: string, replacement: string, now: int)
    | ConfirmReset(user: UserId, replacement: string, now: int)
    | ConfirmInvite(user: UserId, replacement: string)
    | SetSuspended(user: UserId, suspended: bool)

  predicate IsLive(sessions: map<SessionId, Session>, x: SessionId) {
    x in sessions && sessions[x].revokedAt.None?
  }

  function LiveOf(sessions: map<SessionId, Session>, user: UserId): set<SessionId> {
    set x | x in sessions && sessions[x].user == user && sessions[x].revokedAt.None?
  }

  /** The write of `_revoke_all_sessions`: every session that was read, whatever has become of it since. */
  function WithRevoked(sessions: map<SessionId, Session>, ids: set<SessionId>, now: int): map<SessionId, Session> {
    map x | x in sessions :: if x in ids then sessions[x].(revokedAt := Some(now)) else sessions[x]
  }

  /** Every session of the user that was live is revoked now; every other session is as it was. */
  predicate RevokedFor(sessions: map<SessionId, Session>, after: map<SessionId, Session>, user: UserId, now: int) {
    && after.Keys == sessions.Keys
    && forall x :: x in sessions ==>
         && after[x].user == sessions[x].user
         && after[x].revokedAt == if sessions[x].user == user && sessions[x].revokedAt.None? then Some(now) else sessions[x].revokedAt
  }

  function SetPassword(s: State, user: UserId, password: string): State
    requires user in s.users
  {
    s.(users := s.users[user := s.users[user].(password := password)])
  }

  /** The state a call commits, with no other call in between. */
  function Commit(s: State, call: Call): State {
    match call
    case IssueTokens(user) => s.(sessions := s.sessions[s.next := Session(user, None)], next := s.next + 1)
    case Logout(x, now) => if IsLive(s.sessions, x) then s.(sessions := WithRevoked(s.sessions, {x}, now)) else s
    case RevokeSession(user, x, now) =>
      if IsLive(s.sessions, x) && s.sessions[x].user == user then s.(sessions := WithRevoked(s.sessions, {x}, now)) else s
    case ChangePassword(user, current, replacement, now) =>
      if user !in s.users || s.users[user].password != current then s
      else SetPassword(s, user, replacement).(sessions := WithRevoked(s.sessions, LiveOf(s.sessions, user), now))
    case ConfirmReset(user, replacement, now) =>
      if user !in s.users then s
      else SetPassword(s, user, replacement).(sessions := WithRevoked(s.sessions, LiveOf(s.sessions, user), now))
    case ConfirmInvite(user, replacement) => if user !in s.users then s else SetPassword(s, user, replacement)
    case SetSuspended(user, suspended) =>
      if user !in s.users then s else s.(users := s.users[user := s.users[user].(suspended := suspended)])
  }

  function Refresh(s: State, token: Token, now: int): Result<Token, Error> {
    if now >= token.expires || !IsLive(s.sessions, token.session) then Err(Unauthorized)
    else if token.user !in s.users || s.users[token.user].suspended then Err(Unavailable)
    else Ok(token)
  }

  // ---------------------------------------------------------------- over runs

  function Run(s: State, calls: seq<Call>): State
    decreases |calls|
  {
    if calls == [] then s else Commit(Run(s, calls[..|calls| - 1]), calls[|calls| - 1])
  }

  predicate Inv(s: State) {
    forall x :: x in s.sessions ==> x < s.next
  }

  /** The call revokes the live session `x`: its owner logs it out, revokes it, or gets a new password. */
  predicate Ends(s: State, call: Call, x: SessionId) {
    x in s.sessions && match call
      case Logout(y, _) => y == x
      case RevokeSession(user, y, _) => y == x && s.sessions[x].user == user
      case ChangePassword(user, current, _, _) => user == s.sessions[x].user && user in s.users && s.users[user].password == current
      case ConfirmReset(user, _, _) => user == s.sessions[x].user && user in s.users
      case _ => false
  }

  /** None of the calls ends the session, each judged in the state it meets. */
  predicate NoneEnds(s: State, calls: seq<Call>, x: SessionId) {
    forall i :: 0 <= i < |calls| ==> !Ends(Run(s, calls[..i]), calls[i], x)
  }

  lemma NoneEndsUnfolds(s: State, calls: seq<Call>, x: SessionId)
    requires calls != []
    ensures var most := calls[..|calls| - 1];
      NoneEnds(s, calls, x) <==> NoneEnds(s, most, x) && !Ends(Run(s, most), calls[|calls| - 1], x)
  {
    hide Ends, Run;
    var most := calls[..|calls| - 1];
    assert forall i :: 0 <= i < |most| ==> most[..i] == calls[..i] && most[i] == calls[i];
  }

  lemma CommitStep(s: State, call: Call, x: SessionId)
    requires Inv(s)
    ensures Inv(Commit(s, call)) && s.next <= Commit(s, call).next
    ensures x in s.sessions ==>
      && x in Commit(s, call).sessions && Commit(s, call).sessions[x].user == s.sessions[x].user
      && (IsLive(Commit(s, call).sessions, x) <==> IsLive(s.sessions, x) && !Ends(s, call, x))
      && (!IsLive(s.sessions, x) ==> Commit(s, call).sessions[x] == s.sessions[x])
    ensures x !in s.sessions && x in Commit(s, call).sessions ==> x >= s.next
  {
  }

  /**
   A session lives until the first call that ends it and is dead ever after, with the time of its revocation
   written once.
   */
  lemma {:induction false} LiveExactlyUntilEnded(s: State, calls: seq<Call>, x: SessionId)
    requires Inv(s) && x in s.sessions
    ensures var after := Run(s, calls);
      && Inv(after) && x in after.sessions && after.sessions[x].user == s.sessions[x].user
      && (IsLive(after.sessions, x) <==> IsLive(s.sessions, x) && NoneEnds(s, calls, x))
      && (!IsLive(s.sessions, x) ==> after.sessions[x] == s.sessions[x])
  {
    hide Commit, Ends, IsLive, Inv;
    if calls != [] {
      var most := calls[..|calls| - 1];
      NoneEndsUnfolds(s, calls, x);
      hide NoneEnds;
      LiveExactlyUntilEnded(s, most, x);
      CommitStep(Run(s, most), calls[|calls| - 1], x);
    }
  }

  /** Once a password change or reset has gone through, no token issued to the user before it refreshes again. */
  lemma NoRefreshAfterNewPassword(s: State, call: Call, later: seq<Call>, token: Token, now: int)
    requires Inv(s) && (call.ChangePassword? || call.ConfirmReset?)
    requires call.user in s.users && (call.ChangePassword? ==> s.users[call.user].password == call.current)
    requires token.session in s.sessions && s.sessions[token.session].user == call.user
    ensures Refresh(Run(Commit(s, call), later), token, now) == Err(Unauthorized)
  {
    CommitStep(s, call, token.session);
    LiveExactlyUntilEnded(Commit(s, call), later, token.session);
    hide Commit;
  }

  /** Accepting an invite also sets a password, and leaves every token as good as it was. */
  lemma InviteKeepsTokens(s: State, user: UserId, password: string, token: Token, now: int)
    ensures Refresh(Commit(s, ConfirmInvite(user, password)), token, now) == Refresh(s, token, now)
  {
  }

  /** A token works as soon as it is issued, unless the account has been suspended. */
  lemma NewTokenWorks(s: State, user: UserId, now: int, at: int)
    requires user in s.users && !s.users[user].suspended && now <= at < now + TOKEN_LIFETIME
    ensures Refresh(Commit(s, IssueTokens(user)), Token(user, s.next, now + TOKEN_LIFETIME), at).Ok?
  {
  }

  // ---------------------------------------------------------------- calls between its read and its write

  lemma {:induction false} OldSessionsStay(s: State, calls: seq<Call>, x: SessionId)
    requires Inv(s)
    ensures Inv(Run(s, calls)) && s.next <= Run(s, calls).next
    ensures x !in s.sessions && x in Run(s, calls).sessions ==> x >= s.next
    ensures x in s.sessions ==> x in Run(s, calls).sessions && Run(s, calls).sessions[x].user == s.sessions[x].user
  {
    hide Commit, Inv;
    if calls != [] {
      OldSessionsStay(s, calls[..|calls| - 1], x);
      CommitStep(Run(s, calls[..|calls| - 1]), calls[|calls| - 1], x);
    }
  }

  /**
   Revoking all of a user's sessions reads them and then writes them. Whatever is committed in between: of the
   sessions the user has at the end, those still live are exactly those issued in between and not ended since.
   */
  lemma SurvivorsAreTheNewlyIssued(s: State, user: UserId, between: seq<Call>, now: int, x: SessionId)
    requires Inv(s)
    requires var before := Run(s, between); x in before.sessions && before.sessions[x].user == user
    ensures var before := Run(s, between);
      IsLive(WithRevoked(before.sessions, LiveOf(s.sessions, user), now), x) <==> IsLive(before.sessions, x) && x !in s.sessions
  {
    OldSessionsStay(s, between, x);
    if x in s.sessions { LiveExactlyUntilEnded(s, between, x); }
    hide Run;
  }

  /** And the revocation time of a session is written a second time exactly if it was ended in between. */
  lemma RewrittenExactly(s: State, user: UserId, between: seq<Call>, now: int, x: SessionId)
    requires Inv(s) && x in s.sessions && IsLive(s.sessions, x) && s.sessions[x].user == user
    ensures x in Run(s, between).sessions
    ensures WithRevoked(Run(s, between).sessions, LiveOf(s.sessions, user), now)[x].revokedAt == Some(now)
    ensures Run(s, between).sessions[x].revokedAt.Some? <==> !NoneEnds(s, between, x)
  {
    LiveExactlyUntilEnded(s, between, x);
    hide Run, NoneEnds;
  }

  /**
   A password reset reads the user's sessions, of which there are none; a login with the old password, checked
   before the reset, is issued its token; the reset writes. The token refreshes for as long as it lasts.
   */
  lemma LoginSurvivesReset(user: UserId, former: string, replacement: string, now: int, at: int)
    requires now <= at < now + TOKEN_LIFETIME
    ensures var start := State(map[user := User(former, false)], map[], 0);
      var before := Run(SetPassword(start, user, replacement), [IssueTokens(user)]);
      var after := before.(sessions := WithRevoked(before.sessions, LiveOf(start.sessions, user), now));
      Inv(start) && Refresh(after, Token(user, 0, now + TOKEN_LIFETIME), at).Ok?
  {
    var start := State(map[user := User(former, false)], map[], 0);
    var calls := [IssueTokens(user)];
    assert calls[..0] == [];
    assert Run(SetPassword(start, user, replacement), calls) == Commit(SetPassword(start, user, replacement), IssueTokens(user));
    assert LiveOf(start.sessions, user) == {};
  }

  // ---------------------------------------------------------------- as they run

  class AuthService {
    var users: map<UserId, User>
    var sessions: map<SessionId, Session>
    var next: SessionId

    ghost function View(): State
      reads this
    {
      State(users, sessions, next)
    }

    constructor (accounts: map<UserId, User>)
      ensures View() == State(accounts, map[], 0) && Inv(View())
    {
      users, sessions, next := accounts, map[], 0;
    }

    /** Accepting an invite sets the password, and suspending an account its flag; sessions stay as they are. */
    method AcceptInvite(user: UserId, password: string) returns (failure: Option<Error>)
      modifies this`users
      ensures View() == Commit(old(View()), ConfirmInvite(user, password))
      ensures users == if user in old(users) then old(users)[user := User(password, old(users)[user].suspended)] else old(users)
      ensures failure == if user in old(users) then None else Some(NotFound)
    {
      if user !in users { return Some(NotFound); }
      users := users[user := users[user].(password := password)];
      failure := None;
    }

    method SetStatus(user: UserId, suspended: bool)
      requires user in users
      modifies this`users
      ensures View() == Commit(old(View()), SetSuspended(user, suspended))
      ensures users == old(users)[user := User(old(users)[user].password, suspended)]
    {
      users := users[user := users[user].(suspended := suspended)];
    }

    method Issue(user: UserId, now: int) returns (token: Token)
      requires Inv(View())
      modifies this`sessions, this`next
      ensures View() == Commit(old(View()), IssueTokens(user)) && Inv(View())
      ensures token == Token(user, old(next), now + 14 * 24 * 60 * 60 * 1_000_000) && token.session !in old(sessions)
      ensures sessions == old(sessions)[token.session := Session(user, None)]
    {
      token := Token(user, next, now + TOKEN_LIFETIME);
      sessions := sessions[next := Session(user, None)];
      next := next + 1;
    }

    /** The one token that refreshes is an unexpired one of a live session, for an account that is there and not suspended. */
    method RefreshAccess(token: Token, now: int) returns (r: Result<Token, Error>)
      ensures r.Ok? <==> now < token.expires && IsLive(sessions, token.session) && token.user in users && !users[token.user].suspended
      ensures r.Ok? ==> r.value == token
      ensures r == Refresh(View(), token, now)
    {
      if now >= token.expires { return Err(Unauthorized); }
      if token.session !in sessions || sessions[token.session].revokedAt.Some? { return Err(Unauthorized); }
      if token.user !in users || users[token.user].suspended { return Err(Unavailable); }
      r := Ok(token);
    }

    method LogOut(session: SessionId, now: int)
      modifies this`sessions
      ensures sessions == if IsLive(old(sessions), session) then old(sessions)[session := Session(old(sessions)[session].user, Some(now))] else old(sessions)
      ensures View() == Commit(old(View()), Logout(session, now))
    {
      if session in sessions && sessions[session].revokedAt.None? {
        sessions := sessions[session := sessions[session].(revokedAt := Some(now))];
      }
    }

    method Revoke(user: UserId, session: SessionId, now: int) returns (failure: Option<Error>)
      modifies this`sessions
      ensures View() == Commit(old(View()), RevokeSession(user, session, now))
      ensures sessions == if IsLive(old(sessions), session) && old(sessions)[session].user == user
                          then old(sessions)[session := Session(user, Some(now))] else old(sessions)
      ensures failure == if session in old(sessions) && old(sessions)[session].user == user then None else Some(NotFound)
    {
      if session !in sessions || sessions[session].user != user { return Some(NotFound); }
      if sessions[session].revokedAt.None? {
        sessions := sessions[session := sessions[session].(revokedAt := Some(now))];
      }
      failure := None;
    }

    method RevokeAll(user: UserId, now: int)
      modifies this`sessions
      ensures sessions == WithRevoked(old(sessions), LiveOf(old(sessions), user), now)
      ensures RevokedFor(old(sessions), sessions, user, now)
    {
      var live := LiveOf(sessions, user);
      var left := live;
      while left != {}
        invariant left <= live && sessions.Keys == old(sessions).Keys
        invariant forall x :: x in sessions ==>
          sessions[x] == if x in live && x !in left then old(sessions)[x].(revokedAt := Some(now)) else old(sessions)[x]
        decreases |left|
      {
        var x :| x in left;
        sessions := sessions[x := sessions[x].(revokedAt := Some(now))];
        left := left - {x};
      }
    }

    method Change(user: UserId, current: string, password: string, now: int) returns (failure: Option<Error>)
      requires user in users
      modifies this
      ensures View() == Commit(old(View()), ChangePassword(user, current, password, now))
      ensures if old(users)[user].password == current
              then users == old(users)[user := User(password, old(users)[user].suspended)] && RevokedFor(old(sessions), sessions, user, now)
              else users == old(users) && sessions == old(sessions)
      ensures failure == if old(users)[user].password == current then None else Some(WrongPassword)
    {
      if users[user].password != current { return Some(WrongPassword); }
      users := users[user := users[user].(password := password)];
      RevokeAll(user, now);
      failure := None;
    }

    method Reset(user: UserId, password: string, now: int) returns (failure: Option<Error>)
      modifies this
      ensures View() == Commit(old(View()), ConfirmReset(user, password, now))
      ensures if user in old(users)
              then users == old(users)[user := User(password, old(users)[user].suspended)] && RevokedFor(old(sessions), sessions, user, now)
              else users == old(users) && sessions == old(sessions)
      ensures failure == if user in old(users) then None else Some(NotFound)
    {
      if user !in users { return Some(NotFound); }
      users := users[user := users[user].(password := password)];
      RevokeAll(user, now);
      failure := None;
    }
  }
}
