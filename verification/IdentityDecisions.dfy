/**
 What identity mutations, logins, lookups and logouts come to, case by case, in terms of the stored
 fields alone.
 */
module IdentityDecisions {
  import opened Common
  import opened Batches
  import opened Identity
  import opened IdentityEpochs
  import opened Authority

  // ------------------------------------------------------------------ rows

  ghost predicate RowOf(users: seq<User>, k: nat, user: Id, org: Id) {
    k < |users| && users[k].id == user && users[k].org == org
  }

  /** An owner of the organization, other than the user, who is not disabled. */
  ghost predicate AnotherOwner(users: seq<User>, org: Id, user: Id) {
    exists k: nat ::
      k < |users| && users[k].org == org && users[k].id != user && users[k].role == Owner && users[k].disabledAt == None
  }

  /** The row's owner is the last one of the organization. */
  ghost predicate LastOwner(users: seq<User>, u: User) {
    u.role == Owner && u.disabledAt == None && !AnotherOwner(users, u.org, u.id)
  }

  ghost predicate OneEpoch(users: seq<User>, user: Id) {
    forall i: nat, j: nat | i < |users| && j < |users| && users[i].id == user && users[j].id == user ::
      users[i].authenticationEpoch == users[j].authenticationEpoch
  }

  ghost predicate HasRows(users: seq<User>, user: Id) {
    exists k: nat :: k < |users| && users[k].id == user
  }

  /** Exactly the organizations the user has a row in. */
  ghost predicate OrganizationsAre(users: seq<User>, user: Id, orgs: set<Id>) {
    forall org :: org in orgs <==> exists k: nat :: RowOf(users, k, user, org)
  }

  lemma {:induction false} RowIsFound(users: seq<User>, user: Id, org: Id)
    requires UniqueRows(users)
    ensures var row := FindRow(users, user, org);
            && (row.Some? ==> exists k: nat :: RowOf(users, k, user, org) && users[k] == row.value)
            && (row.Some? ==> forall k: nat | RowOf(users, k, user, org) :: users[k] == row.value)
            && (row.None? ==> forall k: nat :: !RowOf(users, k, user, org))
  {
    var row := FindRow(users, user, org);
    if row.Some? {
      var i :| 0 <= i < |users| && users[i] == row.value;
      assert RowOf(users, i, user, org);
    } else {
      forall k: nat ensures !RowOf(users, k, user, org) {
        assert k < |users| ==> users[k] in users;
      }
    }
  }

  lemma {:induction false} OtherOwnerIs(users: seq<User>, org: Id, user: Id)
    ensures HasOtherActiveOwner(users, org, user) <==> AnotherOwner(users, org, user)
  {
  }

  lemma {:induction false} OrganizationsOfAre(users: seq<User>, user: Id)
    ensures OrganizationsAre(users, user, OrganizationsOf(users, user))
    ensures OrganizationsOf(users, user) == {} <==> !HasRows(users, user)
    ensures UniformEpoch(users, user) <==> OneEpoch(users, user)
  {
    var orgs := OrganizationsOf(users, user);
    forall org ensures org in orgs <==> exists k: nat :: RowOf(users, k, user, org) {
      if org in orgs {
        var k :| 0 <= k < |users| && users[k].id == user && users[k].org == org;
        assert RowOf(users, k, user, org);
      }
    }
    if HasRows(users, user) {
      var k: nat :| k < |users| && users[k].id == user;
      assert users[k].org in orgs;
    }
  }

  // ------------------------------------------------------------------ mutations that are refused, and the others

  /** Every row of the user is active, under the password, the bootstrap and the epoch expected. */
  ghost predicate AsExpected(users: seq<User>, m: Mutation)
    requires m.RotateBootstrap?
  {
    forall k: nat | k < |users| && users[k].id == m.user ::
      && users[k].disabledAt == None && users[k].passwordHash == m.expectedHash
      && users[k].bootstrapExpiresAt == Some(m.expectedExpiry)
      && users[k].authenticationEpoch == m.expectedAuthentication
  }

  /** The first unrevoked, unexpired session of the user made for the rotation that holds the token. */
  ghost predicate RotationAt(sessions: seq<Session>, m: Mutation, now: int, k: nat)
    requires m.RotateBootstrap?
  {
    && IsRotation(sessions, m, now, k) && forall j: nat | j < k :: !IsRotation(sessions, m, now, j)
  }

  ghost predicate IsRotation(sessions: seq<Session>, m: Mutation, now: int, k: nat)
    requires m.RotateBootstrap?
  {
    && k < |sessions| && sessions[k].user == m.user && sessions[k].org == m.org && sessions[k].token == m.token
    && sessions[k].purpose == BootstrapRotation && sessions[k].revokedAt == None && now < sessions[k].expiresAt
  }

  /** What a mutation is answered. */
  ghost predicate Judged(s: State, m: Mutation, now: int, r: Outcome) {
    match m
    case RotatePassword(user, _) =>
      if !HasRows(s.users, user) || !OneEpoch(s.users, user) then r == NotFound
      else r.Applied? && OrganizationsAre(s.users, user, r.orgs)
    case DisableUser(user) =>
      if !HasRows(s.users, user) || !OneEpoch(s.users, user) then r == NotFound
      else if exists k: nat :: k < |s.users| && s.users[k].id == user && LastOwner(s.users, s.users[k]) then
        r == OwnerContinuityRequired
      else r.Applied? && OrganizationsAre(s.users, user, r.orgs)
    case ChangeRole(org, user, role) =>
      if forall k: nat :: !RowOf(s.users, k, user, org) then r == NotFound
      else exists k: nat ::
        && RowOf(s.users, k, user, org)
        && if role != Owner && LastOwner(s.users, s.users[k]) then r == OwnerContinuityRequired else r == Applied({org})
    case RemoveMembership(org, user) =>
      if forall k: nat :: !RowOf(s.users, k, user, org) then r == NotFound
      else exists k: nat ::
        && RowOf(s.users, k, user, org)
        && if LastOwner(s.users, s.users[k]) then r == OwnerContinuityRequired else r == Applied({org})
    case RotateBootstrap(user, org, _, _, expectedExpiry, authentication, authorization, _) =>
      if && (exists k: nat :: RowOf(s.users, k, user, org) && s.users[k].authorizationEpoch == authorization)
         && AsExpected(s.users, m) && now < expectedExpiry
         && (exists k: nat ::
               && RotationAt(s.sessions, m, now, k) && s.sessions[k].authenticationEpoch == authentication
               && s.sessions[k].authorizationEpoch == authorization)
      then r.Applied? && OrganizationsAre(s.users, user, r.orgs)
      else r == Forbidden
  }

  lemma {:induction false} RotationIsFound(sessions: seq<Session>, m: Mutation, now: int)
    requires m.RotateBootstrap?
    ensures var x := FindRotation(sessions, m, now);
            && (x.Some? ==> exists k: nat :: RotationAt(sessions, m, now, k) && sessions[k] == x.value)
            && (x.None? ==> forall k: nat :: !IsRotation(sessions, m, now, k))
  {
    if sessions != [] {
      var rest := sessions[1..];
      RotationIsFound(rest, m, now);
      assert forall k: nat :: IsRotation(sessions, m, now, k + 1) <==> IsRotation(rest, m, now, k);
      if IsRotation(sessions, m, now, 0) {
        assert RotationAt(sessions, m, now, 0);
      } else {
        forall k: nat | RotationAt(rest, m, now, k) ensures RotationAt(sessions, m, now, k + 1) {
          forall j: nat | j < k + 1 ensures !IsRotation(sessions, m, now, j) {
            if j > 0 { assert !IsRotation(rest, m, now, j - 1); }
          }
        }
        forall k: nat ensures IsRotation(sessions, m, now, k) ==> k > 0 && IsRotation(rest, m, now, k - 1) { }
      }
    }
  }

  lemma {:induction false} OneRotation(sessions: seq<Session>, m: Mutation, now: int, j: nat, k: nat)
    requires m.RotateBootstrap? && RotationAt(sessions, m, now, j) && RotationAt(sessions, m, now, k)
    ensures j == k
  {
  }

  /** While rows are unique every mutation is answered as listed. */
  lemma {:induction false} JudgeDecides(s: State, m: Mutation, now: int)
    requires UniqueRows(s.users)
    ensures Judged(s, m, now, Judge(s, m, now))
  {
    hide OrganizationsOf, UniformEpoch, OneEpoch, HasRows, OrganizationsAre, FindRow, FindRotation, AnotherOwner,
         HasOtherActiveOwner;
    OrganizationsOfAre(s.users, m.user);
    match m
    case RotatePassword(_, _) =>
    case DisableUser(user) =>
      forall k: nat | k < |s.users| && s.users[k].id == user
        ensures HasOtherActiveOwner(s.users, s.users[k].org, user) == AnotherOwner(s.users, s.users[k].org, user)
      {
        OtherOwnerIs(s.users, s.users[k].org, user);
      }
    case ChangeRole(org, user, _) =>
      RowIsFound(s.users, user, org);
      OtherOwnerIs(s.users, org, user);
    case RemoveMembership(org, user) =>
      RowIsFound(s.users, user, org);
      OtherOwnerIs(s.users, org, user);
    case RotateBootstrap(user, org, _, _, _, _, _, _) =>
      RowIsFound(s.users, user, org);
      RotationIsFound(s.sessions, m, now);
      RotationDecides(s, m, now);
  }

  lemma {:induction false} RotationDecides(s: State, m: Mutation, now: int)
    requires UniqueRows(s.users) && m.RotateBootstrap?
    ensures Judged(s, m, now, Judge(s, m, now))
  {
    hide OrganizationsOf, OrganizationsAre, FindRow, FindRotation, IsRotation, UniqueRows;
    OrganizationsOfAre(s.users, m.user);
    RowIsFound(s.users, m.user, m.org);
    RotationIsFound(s.sessions, m, now);
    forall j: nat, k: nat | RotationAt(s.sessions, m, now, j) && RotationAt(s.sessions, m, now, k) ensures j == k {
      OneRotation(s.sessions, m, now, j, k);
    }
    ExpectedMeansNone(s.users, m);
  }

  lemma {:induction false} ExpectedMeansNone(users: seq<User>, m: Mutation)
    requires m.RotateBootstrap?
    ensures AsExpected(users, m) <==>
              !exists k :: 0 <= k < |users| && users[k].id == m.user
                           && !( && users[k].disabledAt.None? && users[k].passwordHash == m.expectedHash
                                 && users[k].bootstrapExpiresAt == Some(m.expectedExpiry)
                                 && users[k].authenticationEpoch == m.expectedAuthentication)
  {
  }

  // ------------------------------------------------------------------ what a mutation changes

  /** Whether the mutation is about a record of the user in the organization. */
  ghost predicate About(m: Mutation, user: Id, org: Id) {
    match m
    case RotatePassword(u, _) => user == u
    case DisableUser(u) => user == u
    case ChangeRole(o, u, _) => user == u && org == o
    case RemoveMembership(o, u) => user == u && org == o
    case RotateBootstrap(u, _, _, _, _, _, _, _) => user == u
  }

  /** The row as the mutation leaves it: an epoch further, with the field changed that it is for. */
  ghost predicate RowBecomes(m: Mutation, now: int, u: User, v: User) {
    match m
    case RotatePassword(_, hash) => v == u.(passwordHash := hash, authenticationEpoch := u.authenticationEpoch + 1)
    case DisableUser(_) => v == u.(disabledAt := Some(now), authenticationEpoch := u.authenticationEpoch + 1)
    case ChangeRole(_, _, role) => v == u.(role := role, authorizationEpoch := u.authorizationEpoch + 1)
    case RemoveMembership(_, _) => false
    case RotateBootstrap(_, _, _, _, _, _, _, hash) =>
      v == u.(passwordHash := hash, authenticationEpoch := u.authenticationEpoch + 1, bootstrapExpiresAt := None)
  }

  ghost function RowsAbout(users: seq<User>, m: Mutation): set<nat> {
    set k: nat | k < |users| && About(m, users[k].id, users[k].org)
  }

  /** Rows it is about are rewritten or removed, their unrevoked sessions revoked, and nothing else changes. */
  ghost predicate TakesEffect(s: State, t: State, m: Mutation, now: int) {
    && t == s.(users := t.users, sessions := t.sessions)
    && (if m.RemoveMembership? then t.users == Without(s.users, RowsAbout(s.users, m))
        else
          && |t.users| == |s.users|
          && forall k: nat | k < |s.users| ::
               if About(m, s.users[k].id, s.users[k].org) then RowBecomes(m, now, s.users[k], t.users[k])
               else t.users[k] == s.users[k])
    && |t.sessions| == |s.sessions|
    && forall k: nat | k < |s.sessions| ::
         t.sessions[k] == if About(m, s.sessions[k].user, s.sessions[k].org) && s.sessions[k].revokedAt == None
                          then s.sessions[k].(revokedAt := Some(now)) else s.sessions[k]
  }

  lemma {:induction false} ConcernsIsAbout(m: Mutation, user: Id, org: Id)
    ensures Concerns(m, user, org) <==> About(m, user, org)
  {
  }

  lemma {:induction false} RemovedAre(users: seq<User>, m: Mutation, k: nat)
    requires k <= |users|
    ensures RemoveRows(users[k..], m) == Without(users, RowsAbout(users, m), k)
    decreases |users| - k
  {
    if k < |users| {
      RemovedAre(users, m, k + 1);
      assert users[k..][1..] == users[k + 1..];
      ConcernsIsAbout(m, users[k].id, users[k].org);
    }
  }

  ghost predicate MutationDecided(s: State, t: State, m: Mutation, now: int, r: Outcome) {
    Judged(s, m, now, r) && if r.Applied? then TakesEffect(s, t, m, now) else t == s
  }

  /** While rows are unique a mutation is answered as listed, and changes the store exactly when it is applied. */
  lemma {:induction false} MutationDecides(s: State, m: Mutation, now: int)
    requires UniqueRows(s.users)
    ensures MutationDecided(s, Mutated(s, m, now), m, now, Judge(s, m, now))
  {
    hide Judge, Judged, Mutated, TakesEffect;
    JudgeDecides(s, m, now);
    if Judge(s, m, now).Applied? { AppliedTakesEffect(s, m, now); } else { RefusedKeeps(s, m, now); }
  }

  lemma {:induction false} RefusedKeeps(s: State, m: Mutation, now: int)
    requires !Judge(s, m, now).Applied?
    ensures Mutated(s, m, now) == s
  {
    hide Judge;
  }

  lemma {:induction false} AppliedTakesEffect(s: State, m: Mutation, now: int)
    requires Judge(s, m, now).Applied?
    ensures TakesEffect(s, Mutated(s, m, now), m, now)
  {
    hide Judge, RemoveRows, Rewritten, RowBecomes, Concerns, About;
    RemovedAre(s.users, m, 0);
    assert s.users[0..] == s.users;
    forall user, org ensures Concerns(m, user, org) <==> About(m, user, org) { ConcernsIsAbout(m, user, org); }
    if !m.RemoveMembership? {
      forall u ensures RowBecomes(m, now, u, Rewritten(u, m, now)) { RewrittenIs(m, now, u); }
    }
  }

  lemma {:induction false} RewrittenIs(m: Mutation, now: int, u: User)
    requires !m.RemoveMembership?
    ensures RowBecomes(m, now, u, Rewritten(u, m, now))
  {
  }

  // ------------------------------------------------------------------ logging in

  /** The login read the user's active row, if there is one. */
  lemma {:induction false} LoginBegins(s: State, org: Id, user: Id, input: LoginInput, now: int, u: User)
    ensures var l := BeginLogin(s, org, user, input, now);
            && l.org == org && l.input == input && l.timestamp == now
            && (l.row == Some(u) <==> ActiveRow(s.users, org, user, u))
  {
    hide FindActive, ActiveRow;
    ActiveRowIsFound(s.users, org, user, u);
  }

  /** The row is as the caller presents it, the bootstrap fits the purpose, and the session has time to live. */
  ghost predicate MayLogIn(l: Login) {
    && l.row.Some?
    && var u, i := l.row.value, l.input;
       && u.passwordHash == i.hash && u.role == i.role
       && u.authenticationEpoch == i.authentication && u.authorizationEpoch == i.authorization
       && u.bootstrapExpiresAt == i.bootstrapExpiresAt
       && l.timestamp < i.expiresAt
       && match i.purpose
          case Full => u.bootstrapExpiresAt == None
          case BootstrapRotation =>
            && u.bootstrapExpiresAt.Some? && l.timestamp < u.bootstrapExpiresAt.value
            && i.expiresAt <= u.bootstrapExpiresAt.value && i.expiresAt <= l.timestamp + 600_000
  }

  ghost function ExpiredSessions(sessions: seq<Session>, now: int): set<nat> {
    set k: nat | k < |sessions| && sessions[k].expiresAt <= now
  }

  /** What a login comes to. */
  ghost predicate LoginDecided(s: State, t: State, r: Option<Session>, l: Login) {
    if !MayLogIn(l) then t == s && r == None
    else
      var u := l.row.value;
      && r == Some(Session(s.nextId, l.org, u.id, l.input.token, u.authenticationEpoch, u.authorizationEpoch,
                           l.input.purpose, l.input.expiresAt, l.timestamp, None))
      && t == s.(sessions := Without(s.sessions, ExpiredSessions(s.sessions, l.timestamp)) + [r.value],
                 nextId := s.nextId + 1)
  }

  lemma {:induction false} UnexpiredAre(sessions: seq<Session>, now: int, k: nat)
    requires k <= |sessions|
    ensures Unexpired(sessions[k..], now) == Without(sessions, ExpiredSessions(sessions, now), k)
    decreases |sessions| - k
  {
    if k < |sessions| {
      UnexpiredAre(sessions, now, k + 1);
      assert sessions[k..][1..] == sessions[k + 1..];
    }
  }

  /** A login creates a session exactly when it may, with the fields listed, and drops the expired ones. */
  lemma {:induction false} LoginDecides(s: State, l: Login)
    ensures LoginDecided(s, FinishLogin(s, l), if LoginAccepted(l) then Some(SessionOf(l, s.nextId)) else None, l)
  {
    hide Unexpired;
    UnexpiredAre(s.sessions, l.timestamp, 0);
    assert s.sessions[0..] == s.sessions;
  }

  // ------------------------------------------------------------------ looking up

  ghost predicate UsableSession(sessions: seq<Session>, k: nat, user: Id, org: Id, token: Id, now: int) {
    && k < |sessions| && sessions[k].user == user && sessions[k].org == org && sessions[k].token == token
    && sessions[k].revokedAt == None && now < sessions[k].expiresAt
  }

  ghost predicate FirstUsable(sessions: seq<Session>, k: nat, user: Id, org: Id, token: Id, now: int) {
    && UsableSession(sessions, k, user, org, token, now)
    && forall j: nat | j < k :: !UsableSession(sessions, j, user, org, token, now)
  }

  lemma {:induction false} SessionIsFirst(sessions: seq<Session>, user: Id, org: Id, token: Id, now: int)
    ensures var k := FindSession(sessions, user, org, token, now);
            && (k.Some? ==> FirstUsable(sessions, k.value, user, org, token, now))
            && (k.None? ==> forall j: nat :: !UsableSession(sessions, j, user, org, token, now))
  {
    if sessions != [] {
      var rest := sessions[1..];
      SessionIsFirst(rest, user, org, token, now);
      forall j: nat ensures UsableSession(sessions, j + 1, user, org, token, now)
                            <==> UsableSession(rest, j, user, org, token, now) { }
      if !UsableSession(sessions, 0, user, org, token, now) {
        forall j: nat | UsableSession(sessions, j, user, org, token, now)
          ensures j > 0 && UsableSession(rest, j - 1, user, org, token, now)
        {
        }
      }
    }
  }

  /** The session speaks for the row: same epochs, and a bootstrap exactly when it is for the rotation. */
  ghost predicate SpeaksFor(x: Session, u: User, now: int) {
    && x.authenticationEpoch == u.authenticationEpoch && x.authorizationEpoch == u.authorizationEpoch
    && match x.purpose
       case Full => u.bootstrapExpiresAt == None
       case BootstrapRotation =>
         u.bootstrapExpiresAt.Some? && now < u.bootstrapExpiresAt.value && x.expiresAt <= u.bootstrapExpiresAt.value
  }

  /** The first half of an authentication finds the first usable session holding the token. */
  lemma {:induction false} LookupBegins(s: State, user: Id, org: Id, token: Id, now: int, x: Session)
    ensures BeginLookup(s, user, org, token, now) == Some(x) <==>
              exists k: nat :: FirstUsable(s.sessions, k, user, org, token, now) && s.sessions[k] == x
  {
    hide FindSession, UsableSession;
    SessionIsFirst(s.sessions, user, org, token, now);
    var k := FindSession(s.sessions, user, org, token, now);
    forall i: nat, j: nat | FirstUsable(s.sessions, i, user, org, token, now)
                            && FirstUsable(s.sessions, j, user, org, token, now)
      ensures i == j
    {
    }
  }

  /** The second half yields exactly the user's active row, if the session found speaks for it. */
  lemma {:induction false} LookupSucceedsExactly(
      s: State, found: Option<Session>, user: Id, org: Id, now: int, u: User)
    ensures FinishLookup(s, found, user, org, now) == Some(u) <==>
              found.Some? && ActiveRow(s.users, org, user, u) && SpeaksFor(found.value, u, now)
  {
    hide FindActive, ActiveRow;
    ActiveRowIsFound(s.users, org, user, u);
    var row := FindActive(s.users, user, org);
    if row.Some? { ActiveRowIsFound(s.users, org, user, row.value); }
  }

  /**
   A token authenticates a user exactly when the first usable session holding it speaks for the user's
   active row.
   */
  lemma {:induction false} AuthenticatesExactly(s: State, user: Id, org: Id, token: Id, now: int, u: User)
    ensures ActiveUser(s, user, org, token, now) == Some(u) <==>
              && ActiveRow(s.users, org, user, u)
              && exists k: nat :: FirstUsable(s.sessions, k, user, org, token, now) && SpeaksFor(s.sessions[k], u, now)
  {
    hide FinishLookup, FindSession, ActiveRow, SpeaksFor, UsableSession;
    LookupSucceedsExactly(s, BeginLookup(s, user, org, token, now), user, org, now, u);
    SessionIsFirst(s.sessions, user, org, token, now);
    var k := FindSession(s.sessions, user, org, token, now);
    forall i: nat | k.Some? && FirstUsable(s.sessions, i, user, org, token, now) ensures i == k.value { }
  }

  // ------------------------------------------------------------------ logging out

  /** What a logout comes to: the first session usable when it began is revoked as of then. */
  ghost predicate LogoutDecided(s: State, t: State, revoked: bool, o: Logout) {
    && (revoked <==> o.allowed && exists k: nat :: FirstUsable(s.sessions, k, o.user, o.org, o.token, o.timestamp))
    && if revoked then
         exists k: nat ::
           && FirstUsable(s.sessions, k, o.user, o.org, o.token, o.timestamp)
           && t == s.(sessions := s.sessions[k := s.sessions[k].(revokedAt := Some(o.timestamp))])
       else t == s
  }

  /** A logout begins allowed exactly when users log themselves out and are not disabled. */
  lemma {:induction false} LogoutBegins(s: State, user: Id, org: Id, token: Id, actor: Id, now: int)
    ensures var o := BeginLogout(s, user, org, token, actor, now);
            && o.user == user && o.org == org && o.token == token && o.timestamp == now
            && (o.allowed <==> actor == user && exists u :: ActiveRow(s.users, org, user, u))
  {
    hide FindActive, ActiveRow;
    var row := FindActive(s.users, user, org);
    if row.Some? { ActiveRowIsFound(s.users, org, user, row.value); }
    if exists u :: ActiveRow(s.users, org, user, u) {
      var u :| ActiveRow(s.users, org, user, u);
      ActiveRowIsFound(s.users, org, user, u);
    }
  }

  lemma {:induction false} LogoutDecides(s: State, o: Logout)
    ensures LogoutDecided(s, FinishLogout(s, o),
                          o.allowed && FindSession(s.sessions, o.user, o.org, o.token, o.timestamp).Some?, o)
  {
    hide FindSession, UsableSession;
    SessionIsFirst(s.sessions, o.user, o.org, o.token, o.timestamp);
  }
}
