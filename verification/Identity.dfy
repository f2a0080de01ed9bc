/**
 Users, sessions and the identity mutations of the memory store (apps/api/src/store/memory.ts).
 A user has one row per organization; epochs are the counters that derived authority is bound to.
 */
module Identity {
  import opened Common

  type Id = nat

  datatype Role = Owner | Admin | Publisher | Viewer

  datatype User = User(
    id: Id, org: Id, membership: Id, role: Role, disabledAt: Option<int>, passwordHash: Id,
    authenticationEpoch: nat, authorizationEpoch: nat, bootstrapExpiresAt: Option<int>)

  datatype Purpose = Full | BootstrapRotation

  datatype Session = Session(
    id: Id, org: Id, user: Id, token: Id, authenticationEpoch: nat, authorizationEpoch: nat,
    purpose: Purpose, expiresAt: int, createdAt: int, revokedAt: Option<int>)

  datatype State = State(users: seq<User>, sessions: seq<Session>, nextId: Id)

  const TEN_MINUTES := 600_000

  // ------------------------------------------------------------------ rows

  predicate IsRow(u: User, user: Id, org: Id) { u.id == user && u.org == org }

  function FindRow(users: seq<User>, user: Id, org: Id): (r: Option<User>)
    ensures r.Some? ==> r.value in users && IsRow(r.value, user, org)
    ensures r.None? ==> forall u | u in users :: !IsRow(u, user, org)
  {
    if users == [] then None
    else if IsRow(users[0], user, org) then Some(users[0])
    else FindRow(users[1..], user, org)
  }

  /** The row of a user who is not disabled. */
  function FindActive(users: seq<User>, user: Id, org: Id): (r: Option<User>)
    ensures r.Some? ==> r.value in users && IsRow(r.value, user, org) && r.value.disabledAt.None?
    ensures r.None? ==> forall u | u in users && IsRow(u, user, org) :: u.disabledAt.Some?
  {
    if users == [] then None
    else if IsRow(users[0], user, org) && users[0].disabledAt.None? then Some(users[0])
    else FindActive(users[1..], user, org)
  }

  predicate IsActiveOwner(u: User, org: Id) { u.org == org && u.role == Owner && u.disabledAt.None? }

  ghost predicate HasActiveOwner(users: seq<User>, org: Id) {
    exists u :: u in users && IsActiveOwner(u, org)
  }

  predicate HasOtherActiveOwner(users: seq<User>, org: Id, user: Id) {
    exists k :: 0 <= k < |users| && IsActiveOwner(users[k], org) && users[k].id != user
  }

  function OrganizationsOf(users: seq<User>, user: Id): set<Id> {
    set k | 0 <= k < |users| && users[k].id == user :: users[k].org
  }

  // ------------------------------------------------------------------ mutations

  datatype Mutation =
    | RotatePassword(user: Id, hash: Id)
    | DisableUser(user: Id)
    | ChangeRole(org: Id, user: Id, role: Role)
    | RemoveMembership(org: Id, user: Id)
    | RotateBootstrap(
        user: Id, org: Id, token: Id, expectedHash: Id, expectedExpiry: int,
        expectedAuthentication: nat, expectedAuthorization: nat, hash: Id)

  datatype Outcome = Applied(orgs: set<Id>) | NotFound | OwnerContinuityRequired | Forbidden

  /** The rows a mutation is about. */
  predicate Concerns(m: Mutation, user: Id, org: Id) {
    m.user == user && ((m.ChangeRole? || m.RemoveMembership?) ==> m.org == org)
  }

  predicate UniformEpoch(users: seq<User>, user: Id) {
    forall i, j | 0 <= i < |users| && 0 <= j < |users| && users[i].id == user && users[j].id == user ::
      users[i].authenticationEpoch == users[j].authenticationEpoch
  }

  /** The unrevoked, unexpired rotation session holding the token. */
  function FindRotation(sessions: seq<Session>, m: Mutation, now: int): Option<Session>
    requires m.RotateBootstrap?
  {
    if sessions == [] then None else
    var x := sessions[0];
    if x.user == m.user && x.org == m.org && x.token == m.token && x.purpose == BootstrapRotation
       && x.revokedAt.None? && x.expiresAt > now
    then Some(x) else FindRotation(sessions[1..], m, now)
  }

  function Judge(s: State, m: Mutation, now: int): Outcome {
    match m
    case RotatePassword(user, _) =>
      if OrganizationsOf(s.users, user) == {} || !UniformEpoch(s.users, user) then NotFound
      else Applied(OrganizationsOf(s.users, user))
    case DisableUser(user) =>
      if OrganizationsOf(s.users, user) == {} || !UniformEpoch(s.users, user) then NotFound
      else if exists k :: 0 <= k < |s.users| && s.users[k].id == user && s.users[k].disabledAt.None?
                          && s.users[k].role == Owner && !HasOtherActiveOwner(s.users, s.users[k].org, user)
      then OwnerContinuityRequired
      else Applied(OrganizationsOf(s.users, user))
    case ChangeRole(org, user, role) =>
      var row := FindRow(s.users, user, org);
      if row.None? then NotFound
      else if row.value.role == Owner && role != Owner && row.value.disabledAt.None?
              && !HasOtherActiveOwner(s.users, org, user)
      then OwnerContinuityRequired
      else Applied({org})
    case RemoveMembership(org, user) =>
      var row := FindRow(s.users, user, org);
      if row.None? then NotFound
      else if row.value.role == Owner && row.value.disabledAt.None? && !HasOtherActiveOwner(s.users, org, user)
      then OwnerContinuityRequired
      else Applied({org})
    case RotateBootstrap(user, org, _, expectedHash, expectedExpiry, authentication, authorization, _) =>
      var current := FindRow(s.users, user, org);
      var session := FindRotation(s.sessions, m, now);
      if current.None? || current.value.disabledAt.Some? || session.None?
         || (exists k :: 0 <= k < |s.users| && s.users[k].id == user
                         && !( && s.users[k].disabledAt.None? && s.users[k].passwordHash == expectedHash
                               && s.users[k].bootstrapExpiresAt == Some(expectedExpiry)
                               && s.users[k].authenticationEpoch == authentication))
         || expectedExpiry <= now
         || current.value.authorizationEpoch != authorization
         || session.value.authenticationEpoch != authentication
         || session.value.authorizationEpoch != authorization
      then Forbidden
      else Applied(OrganizationsOf(s.users, user))
  }

  /** A row of the user after the mutation. */
  function Rewritten(u: User, m: Mutation, now: int): User {
    match m
    case RotatePassword(_, hash) => u.(passwordHash := hash, authenticationEpoch := u.authenticationEpoch + 1)
    case DisableUser(_) => u.(disabledAt := Some(now), authenticationEpoch := u.authenticationEpoch + 1)
    case ChangeRole(_, _, role) => u.(role := role, authorizationEpoch := u.authorizationEpoch + 1)
    case RemoveMembership(_, _) => u
    case RotateBootstrap(_, _, _, _, _, _, _, hash) =>
      u.(passwordHash := hash, authenticationEpoch := u.authenticationEpoch + 1, bootstrapExpiresAt := None)
  }

  function RewriteRows(users: seq<User>, m: Mutation, now: int): (r: seq<User>)
    ensures |r| == |users|
    ensures forall k | 0 <= k < |users| ::
              r[k] == if Concerns(m, users[k].id, users[k].org) then Rewritten(users[k], m, now) else users[k]
  {
    seq(|users|, k requires 0 <= k < |users| =>
      if Concerns(m, users[k].id, users[k].org) then Rewritten(users[k], m, now) else users[k])
  }

  function RemoveRows(users: seq<User>, m: Mutation): (r: seq<User>)
    ensures forall u :: u in r <==> u in users && !Concerns(m, u.id, u.org)
  {
    if users == [] then []
    else (if Concerns(m, users[0].id, users[0].org) then [] else [users[0]]) + RemoveRows(users[1..], m)
  }

  function RevokeSessions(sessions: seq<Session>, m: Mutation, now: int): (r: seq<Session>)
    ensures |r| == |sessions|
    ensures forall k | 0 <= k < |sessions| ::
              r[k] == if Concerns(m, sessions[k].user, sessions[k].org) && sessions[k].revokedAt.None?
                      then sessions[k].(revokedAt := Some(now)) else sessions[k]
  {
    seq(|sessions|, k requires 0 <= k < |sessions| =>
      if Concerns(m, sessions[k].user, sessions[k].org) && sessions[k].revokedAt.None?
      then sessions[k].(revokedAt := Some(now)) else sessions[k])
  }

  function Mutated(s: State, m: Mutation, now: int): State {
    if !Judge(s, m, now).Applied? then s else
    s.(users := if m.RemoveMembership? then RemoveRows(s.users, m) else RewriteRows(s.users, m, now),
       sessions := RevokeSessions(s.sessions, m, now))
  }

  // ------------------------------------------------------------------ sessions

  datatype LoginInput = LoginInput(
    token: Id, expiresAt: int, purpose: Purpose, hash: Id, role: Role,
    authentication: nat, authorization: nat, bootstrapExpiresAt: Option<int>)

  /** A login suspended at its lookup of the user: what it has read so far. */
  datatype Login = Login(org: Id, input: LoginInput, timestamp: int, row: Option<User>)

  function BeginLogin(s: State, org: Id, user: Id, input: LoginInput, now: int): Login {
    Login(org, input, now, FindActive(s.users, user, org))
  }

  predicate LoginAccepted(l: Login) {
    && l.row.Some?
    && var u, i := l.row.value, l.input;
       && u.passwordHash == i.hash && u.role == i.role
       && u.authenticationEpoch == i.authentication && u.authorizationEpoch == i.authorization
       && u.bootstrapExpiresAt == i.bootstrapExpiresAt
       && (i.purpose.Full? ==> u.bootstrapExpiresAt.None?)
       && (i.purpose.BootstrapRotation? ==>
             && u.bootstrapExpiresAt.Some?
             && u.bootstrapExpiresAt.value > l.timestamp
             && i.expiresAt <= u.bootstrapExpiresAt.value
             && i.expiresAt - l.timestamp <= TEN_MINUTES)
       && i.expiresAt > l.timestamp
  }

  function SessionOf(l: Login, id: Id): Session
    requires LoginAccepted(l)
  {
    Session(id, l.org, l.row.value.id, l.input.token, l.row.value.authenticationEpoch,
            l.row.value.authorizationEpoch, l.input.purpose, l.input.expiresAt, l.timestamp, None)
  }

  function Unexpired(sessions: seq<Session>, now: int): (r: seq<Session>)
    ensures forall x :: x in r <==> x in sessions && x.expiresAt > now
  {
    if sessions == [] then []
    else (if sessions[0].expiresAt > now then [sessions[0]] else []) + Unexpired(sessions[1..], now)
  }

  function FinishLogin(s: State, l: Login): State {
    if !LoginAccepted(l) then s else
    s.(sessions := Unexpired(s.sessions, l.timestamp) + [SessionOf(l, s.nextId)], nextId := s.nextId + 1)
  }

  function FindSession(sessions: seq<Session>, user: Id, org: Id, token: Id, now: int): (r: Option<nat>)
    ensures r.Some? ==>
              && r.value < |sessions|
              && var x := sessions[r.value];
                 x.user == user && x.org == org && x.token == token && x.revokedAt.None? && x.expiresAt > now
  {
    if sessions == [] then None else
    var x := sessions[0];
    if x.user == user && x.org == org && x.token == token && x.revokedAt.None? && x.expiresAt > now then Some(0)
    else
      var rest := FindSession(sessions[1..], user, org, token, now);
      if rest.None? then None else Some(rest.value + 1)
  }

  /** The session a presented token leads to, before the user is looked up. */
  function BeginLookup(s: State, user: Id, org: Id, token: Id, now: int): Option<Session> {
    var k := FindSession(s.sessions, user, org, token, now);
    if k.None? then None else Some(s.sessions[k.value])
  }

  /** The user authenticated by the session found, with the user's row as it is now. */
  function FinishLookup(s: State, found: Option<Session>, user: Id, org: Id, now: int): Option<User> {
    var row := if found.Some? then FindActive(s.users, user, org) else None;
    if row.None? then None else
    var x, u := found.value, row.value;
    if && u.authenticationEpoch == x.authenticationEpoch && u.authorizationEpoch == x.authorizationEpoch
       && (if x.purpose.Full? then u.bootstrapExpiresAt.None?
           else
             && u.bootstrapExpiresAt.Some? && u.bootstrapExpiresAt.value > now
             && x.expiresAt <= u.bootstrapExpiresAt.value)
    then row else None
  }

  /** The user a presented token authenticates, if it does, when nothing comes in between. */
  function ActiveUser(s: State, user: Id, org: Id, token: Id, now: int): Option<User> {
    FinishLookup(s, BeginLookup(s, user, org, token, now), user, org, now)
  }

  /** A logout suspended at its lookup of the user: whether it may go on, and the clock it began at. */
  datatype Logout = Logout(user: Id, org: Id, token: Id, timestamp: int, allowed: bool)

  function BeginLogout(s: State, user: Id, org: Id, token: Id, actor: Id, now: int): Logout {
    Logout(user, org, token, now, actor == user && FindActive(s.users, user, org).Some?)
  }

  function FinishLogout(s: State, o: Logout): State {
    var k := FindSession(s.sessions, o.user, o.org, o.token, o.timestamp);
    if k.None? || !o.allowed then s
    else s.(sessions := s.sessions[k.value := s.sessions[k.value].(revokedAt := Some(o.timestamp))])
  }
}
