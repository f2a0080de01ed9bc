/** The part of the memory store that holds users and sessions, updated in place. */
module IdentityStore {
  import opened Common
  import opened Identity
  import opened IdentityEpochs
  import opened IdentityRuns
  import opened IdentityDecisions
  import opened Authority

  // ------------------------------------------------------------------ what a mutation leaves behind

  /** No token authenticates a user the mutation is about. */
  ghost predicate NoneAuthenticates(s: State, m: Mutation) {
    forall user, org, token, at | Concerns(m, user, org) :: ActiveUser(s, user, org, token, at).None?
  }

  /** Whatever session the suspended logins of those users go on to create will never authenticate. */
  ghost predicate LoginsOverrun(users: seq<User>, logins: seq<Login>, m: Mutation) {
    forall l | l in logins && l.row.Some? && Concerns(m, l.row.value.id, l.org) ::
      Outdated(users, l.row.value.id, l.org, l.row.value.authenticationEpoch, l.row.value.authorizationEpoch)
  }

  lemma {:induction false} MutationEndsAuthority(s: State, logins: seq<Login>, m: Mutation, now: int)
    requires Inv(Machine(s, logins, []))
    ensures Inv(Machine(Mutated(s, m, now), logins, []))
    ensures Judge(s, m, now).Applied? ==>
              NoneAuthenticates(Mutated(s, m, now), m) && LoginsOverrun(Mutated(s, m, now).users, logins, m)
    ensures forall org | HasActiveOwner(s.users, org) :: HasActiveOwner(Mutated(s, m, now).users, org)
  {
    hide Judge, Mutated, HasActiveOwner, ActiveUser;
    var c := Machine(s, logins, []);
    StepKeepsInv(c, Mutate(m, now));
    forall org | HasActiveOwner(s.users, org) ensures HasActiveOwner(Mutated(s, m, now).users, org) {
      OwnerContinuity(s, m, now, org);
    }
    if Judge(s, m, now).Applied? {
      forall user, org, token, at | Concerns(m, user, org)
        ensures ActiveUser(Mutated(s, m, now), user, org, token, at).None?
      {
        NoSessionOutlives(s, logins, m, now, user, org, token, at);
      }
      forall l | l in logins && l.row.Some? && Concerns(m, l.row.value.id, l.org)
        ensures Outdated(Mutated(s, m, now).users, l.row.value.id, l.org,
                         l.row.value.authenticationEpoch, l.row.value.authorizationEpoch)
      {
        assert LoginReached(s.users, l);
        MutationAdvances(s, m, now, l.row.value.id, l.org, l.row.value.authenticationEpoch,
                         l.row.value.authorizationEpoch);
      }
    }
  }

  lemma {:induction false} NoSessionOutlives(
      s: State, logins: seq<Login>, m: Mutation, now: int, user: Id, org: Id, token: Id, at: int)
    requires Inv(Machine(s, logins, [])) && Judge(s, m, now).Applied? && Concerns(m, user, org)
    ensures ActiveUser(Mutated(s, m, now), user, org, token, at).None?
  {
    hide Judge, Mutated, FindSession;
    var c := Machine(s, logins, []);
    var t := Mutated(s, m, now);
    MutationEndsSessions(c, m, now, [], user, org, token, at);
    assert Run(Step(c, Mutate(m, now)), []).store == t;
    if ActiveUser(t, user, org, token, at).Some? {
      ActiveUserNeedsCurrent(t, user, org, token, at);
      var x := t.sessions[FindSession(t.sessions, user, org, token, at).value];
      StepKeepsInv(c, Mutate(m, now));
      SameNextId(s, m, now);
    }
  }

  lemma {:induction false} SameNextId(s: State, m: Mutation, now: int)
    ensures Mutated(s, m, now).nextId == s.nextId
  {
    hide Judge;
  }

  // ------------------------------------------------------------------ logging in and out

  ghost predicate FreshToken(sessions: seq<Session>, user: Id, org: Id, token: Id) {
    forall k | 0 <= k < |sessions| :: !Holds(sessions[k], user, org, token)
  }

  lemma {:induction false} LastIsFound(xs: seq<Session>, x: Session, user: Id, org: Id, token: Id, now: int)
    requires FreshToken(xs, user, org, token)
    requires Holds(x, user, org, token) && x.revokedAt.None? && x.expiresAt > now
    ensures FindSession(xs + [x], user, org, token, now) == Some(|xs|)
  {
    if xs != [] {
      assert !Holds(xs[0], user, org, token) && (xs + [x])[1..] == xs[1..] + [x];
      LastIsFound(xs[1..], x, user, org, token, now);
    }
  }

  lemma {:induction false} UnexpiredKeepsFresh(xs: seq<Session>, now: int, user: Id, org: Id, token: Id)
    requires FreshToken(xs, user, org, token)
    ensures FreshToken(Unexpired(xs, now), user, org, token)
  {
    forall k | 0 <= k < |Unexpired(xs, now)| ensures !Holds(Unexpired(xs, now)[k], user, org, token) {
      assert Unexpired(xs, now)[k] in xs;
    }
  }

  /**
   The session a login creates authenticates its user until it expires, if the user's row is still as
   the login read it; and if no active row has those epochs any more, it authenticates nobody.
   */
  lemma {:induction false} LoginTakesEffect(s: State, l: Login, now: int)
    requires LoginAccepted(l) && l.row.value.org == l.org && now < l.input.expiresAt
    requires FreshToken(s.sessions, l.row.value.id, l.org, l.input.token)
    ensures var t, u := FinishLogin(s, l), l.row.value;
            && (FindActive(s.users, u.id, l.org) == l.row ==> ActiveUser(t, u.id, l.org, l.input.token, now) == l.row)
            && (!Current(s.users, u.id, l.org, u.authenticationEpoch, u.authorizationEpoch) ==>
                  ActiveUser(t, u.id, l.org, l.input.token, now) == None)
  {
    hide FindSession;
    var t, u := FinishLogin(s, l), l.row.value;
    UnexpiredKeepsFresh(s.sessions, l.timestamp, u.id, l.org, l.input.token);
    LastIsFound(Unexpired(s.sessions, l.timestamp), SessionOf(l, s.nextId), u.id, l.org, l.input.token, now);
    if ActiveUser(t, u.id, l.org, l.input.token, now).Some? {
      ActiveUserNeedsCurrent(t, u.id, l.org, l.input.token, now);
    }
  }

  // ------------------------------------------------------------------ the store

  class MemoryStore {
    var users: seq<User>
    var userSessions: seq<Session>
    var nextId: Id
    /** The logins begun so far, each with the row it read. */
    ghost var logins: seq<Login>

    function Contents(): State
      reads this
    {
      State(users, userSessions, nextId)
    }

    /** Rows are unique, and no session and no suspended login is ahead of the rows. */
    ghost predicate Valid()
      reads this
    {
      Inv(Machine(Contents(), logins, []))
    }

    constructor (users: seq<User>)
      requires UniqueRows(users)
      ensures Valid() && Contents() == State(users, [], 0)
    {
      this.users, userSessions, nextId, logins := users, [], 0, [];
    }

    /** The user's organizations and the authentication epochs of the user's rows. */
    method Memberships(user: Id) returns (organizations: set<Id>, epochs: set<nat>)
      ensures organizations == OrganizationsOf(users, user)
      ensures organizations != {} ==> (|epochs| == 1 <==> UniformEpoch(users, user))
    {
      organizations, epochs := {}, {};
      for k := 0 to |users|
        invariant organizations == set j | 0 <= j < k && users[j].id == user :: users[j].org
        invariant epochs == set j | 0 <= j < k && users[j].id == user :: users[j].authenticationEpoch
      {
        if users[k].id == user {
          organizations := organizations + {users[k].org};
          epochs := epochs + {users[k].authenticationEpoch};
        }
      }
      OneEpochMeansUniform(users, user, epochs);
    }

    lemma {:induction false} OneEpochMeansUniform(users: seq<User>, user: Id, epochs: set<nat>)
      requires epochs == set j | 0 <= j < |users| && users[j].id == user :: users[j].authenticationEpoch
      ensures OrganizationsOf(users, user) != {} ==> (|epochs| == 1 <==> UniformEpoch(users, user))
    {
      if OrganizationsOf(users, user) != {} {
        var org :| org in OrganizationsOf(users, user);
        var k :| 0 <= k < |users| && users[k].id == user && users[k].org == org;
        var epoch := users[k].authenticationEpoch;
        assert epoch in epochs;
        if UniformEpoch(users, user) { assert epochs == {epoch}; }
        if |epochs| == 1 {
          assert |epochs - {epoch}| == 0;
          assert forall j | 0 <= j < |users| && users[j].id == user :: users[j].authenticationEpoch in epochs;
          assert forall e | e in epochs :: e == epoch;
        }
      }
    }

    method RewriteUsers(m: Mutation, now: int)
      modifies `users
      ensures users == RewriteRows(old(users), m, now)
    {
      hide Rewritten;
      var before := users;
      for k := 0 to |before|
        modifies `users
        invariant |users| == |before|
        invariant forall j | 0 <= j < |before| ::
                    users[j] == if j < k && Concerns(m, before[j].id, before[j].org) then Rewritten(before[j], m, now)
                                else before[j]
      {
        if Concerns(m, before[k].id, before[k].org) {
          users := users[k := Rewritten(before[k], m, now)];
        }
      }
      assert users == RewriteRows(before, m, now);
    }

    method RevokeSessionsOf(m: Mutation, now: int)
      modifies `userSessions
      ensures userSessions == RevokeSessions(old(userSessions), m, now)
    {
      var before := userSessions;
      for k := 0 to |before|
        modifies `userSessions
        invariant |userSessions| == |before|
        invariant forall j | 0 <= j < |before| ::
                    userSessions[j] == if j < k && Concerns(m, before[j].user, before[j].org)
                                          && before[j].revokedAt.None?
                                       then before[j].(revokedAt := Some(now)) else before[j]
      {
        if Concerns(m, before[k].user, before[k].org) && before[k].revokedAt.None? {
          userSessions := userSessions[k := before[k].(revokedAt := Some(now))];
        }
      }
      assert userSessions == RevokeSessions(before, m, now);
    }

    lemma {:induction false} RemoveRowsFrom(xs: seq<User>, k: nat, m: Mutation)
      ensures k < |xs| ==>
                RemoveRows(xs[k..], m)
                  == (if Concerns(m, xs[k].id, xs[k].org) then [] else [xs[k]]) + RemoveRows(xs[k + 1..], m)
      ensures k == |xs| ==> RemoveRows(xs[k..], m) == []
    {
      if k < |xs| { assert xs[k..][1..] == xs[k + 1..]; }
    }

    method RemoveMemberships(m: Mutation)
      modifies `users
      ensures users == RemoveRows(old(users), m)
    {
      hide RemoveRows;
      var before := users;
      var kept: seq<User> := [];
      assert before[0..] == before;
      for k := 0 to |before|
        invariant kept + RemoveRows(before[k..], m) == RemoveRows(before, m)
      {
        RemoveRowsFrom(before, k, m);
        if !Concerns(m, before[k].id, before[k].org) {
          kept := kept + [before[k]];
        }
      }
      RemoveRowsFrom(before, |before|, m);
      users := kept;
    }

    lemma {:induction false} UniqueRowsOf(s: State, logins: seq<Login>)
      requires Inv(Machine(s, logins, []))
      ensures UniqueRows(s.users)
    {
    }

    /** A rotation ends every session of the user, and overruns the logins still under way. */
    method RotateUserPassword(user: Id, hash: Id, now: int) returns (r: Outcome)
      requires Valid()
      modifies this
      ensures r == Judge(old(Contents()), RotatePassword(user, hash), now)
      ensures MutationDecided(old(Contents()), Contents(), RotatePassword(user, hash), now, r)
      ensures Contents() == Mutated(old(Contents()), RotatePassword(user, hash), now) && logins == old(logins)
      ensures Valid()
      ensures r.Applied? ==>
                && NoneAuthenticates(Contents(), RotatePassword(user, hash))
                && LoginsOverrun(users, logins, RotatePassword(user, hash))
                && forall u | u in users && u.id == user :: u.passwordHash == hash
      ensures forall org | old(HasActiveOwner(users, org)) :: HasActiveOwner(users, org)
    {
      hide Inv, HasActiveOwner, NoneAuthenticates, LoginsOverrun, OrganizationsOf, UniformEpoch, MutationDecided,
           UniqueRows;
      UniqueRowsOf(Contents(), logins);
      MutationDecides(Contents(), RotatePassword(user, hash), now);
      MutationEndsAuthority(Contents(), logins, RotatePassword(user, hash), now);
      var organizations, epochs := Memberships(user);
      if organizations == {} || |epochs| != 1 {
        return NotFound;
      }
      RewriteUsers(RotatePassword(user, hash), now);
      RevokeSessionsOf(RotatePassword(user, hash), now);
      return Applied(organizations);
    }

    /** A disablement ends every session of the user, and leaves each organization its owner. */
    method DisableUserAndAudit(user: Id, now: int) returns (r: Outcome)
      requires Valid()
      modifies this
      ensures r == Judge(old(Contents()), DisableUser(user), now)
      ensures MutationDecided(old(Contents()), Contents(), DisableUser(user), now, r)
      ensures Contents() == Mutated(old(Contents()), DisableUser(user), now) && logins == old(logins)
      ensures Valid()
      ensures r.Applied? ==>
                && NoneAuthenticates(Contents(), DisableUser(user))
                && LoginsOverrun(users, logins, DisableUser(user))
                && forall u | u in users && u.id == user :: u.disabledAt.Some?
      ensures forall org | old(HasActiveOwner(users, org)) :: HasActiveOwner(users, org)
    {
      hide Inv, HasActiveOwner, NoneAuthenticates, LoginsOverrun, OrganizationsOf, UniformEpoch, HasOtherActiveOwner,
           MutationDecided, UniqueRows;
      UniqueRowsOf(Contents(), logins);
      MutationDecides(Contents(), DisableUser(user), now);
      MutationEndsAuthority(Contents(), logins, DisableUser(user), now);
      var organizations, epochs := Memberships(user);
      if organizations == {} || |epochs| != 1 {
        return NotFound;
      }
      for k := 0 to |users|
        invariant forall j | 0 <= j < k && users[j].id == user && users[j].disabledAt.None? && users[j].role == Owner ::
                    HasOtherActiveOwner(users, users[j].org, user)
      {
        var u := users[k];
        if u.id == user && u.disabledAt.None? && u.role == Owner && !HasOtherActiveOwner(users, u.org, user) {
          return OwnerContinuityRequired;
        }
      }
      RewriteUsers(DisableUser(user), now);
      RevokeSessionsOf(DisableUser(user), now);
      return Applied(organizations);
    }

    /** A role change ends the user's sessions in the organization, and leaves it its owner. */
    method ChangeMembershipRole(org: Id, user: Id, role: Role, now: int) returns (r: Outcome)
      requires Valid()
      modifies this
      ensures r == Judge(old(Contents()), ChangeRole(org, user, role), now)
      ensures MutationDecided(old(Contents()), Contents(), ChangeRole(org, user, role), now, r)
      ensures Contents() == Mutated(old(Contents()), ChangeRole(org, user, role), now) && logins == old(logins)
      ensures Valid()
      ensures r.Applied? ==>
                && NoneAuthenticates(Contents(), ChangeRole(org, user, role))
                && LoginsOverrun(users, logins, ChangeRole(org, user, role))
                && forall u | u in users && IsRow(u, user, org) :: u.role == role
      ensures forall o | old(HasActiveOwner(users, o)) :: HasActiveOwner(users, o)
    {
      hide Inv, HasActiveOwner, NoneAuthenticates, LoginsOverrun, HasOtherActiveOwner, MutationDecided, UniqueRows;
      UniqueRowsOf(Contents(), logins);
      MutationDecides(Contents(), ChangeRole(org, user, role), now);
      MutationEndsAuthority(Contents(), logins, ChangeRole(org, user, role), now);
      var row := FindRow(users, user, org);
      if row.None? {
        return NotFound;
      }
      if row.value.role == Owner && role != Owner && row.value.disabledAt.None?
         && !HasOtherActiveOwner(users, org, user)
      {
        return OwnerContinuityRequired;
      }
      RewriteUsers(ChangeRole(org, user, role), now);
      RevokeSessionsOf(ChangeRole(org, user, role), now);
      return Applied({org});
    }

    /** A removed member has no row left and no session, and the organization keeps its owner. */
    method RemoveMembershipAndAudit(org: Id, user: Id, now: int) returns (r: Outcome)
      requires Valid()
      modifies this
      ensures r == Judge(old(Contents()), RemoveMembership(org, user), now)
      ensures MutationDecided(old(Contents()), Contents(), RemoveMembership(org, user), now, r)
      ensures Contents() == Mutated(old(Contents()), RemoveMembership(org, user), now) && logins == old(logins)
      ensures Valid()
      ensures r.Applied? ==>
                && NoneAuthenticates(Contents(), RemoveMembership(org, user))
                && LoginsOverrun(users, logins, RemoveMembership(org, user))
                && forall u | u in users :: !IsRow(u, user, org)
      ensures forall o | old(HasActiveOwner(users, o)) :: HasActiveOwner(users, o)
    {
      hide Inv, HasActiveOwner, NoneAuthenticates, LoginsOverrun, HasOtherActiveOwner, MutationDecided, UniqueRows;
      UniqueRowsOf(Contents(), logins);
      MutationDecides(Contents(), RemoveMembership(org, user), now);
      MutationEndsAuthority(Contents(), logins, RemoveMembership(org, user), now);
      var row := FindRow(users, user, org);
      if row.None? {
        return NotFound;
      }
      if row.value.role == Owner && row.value.disabledAt.None? && !HasOtherActiveOwner(users, org, user) {
        return OwnerContinuityRequired;
      }
      RevokeSessionsOf(RemoveMembership(org, user), now);
      RemoveMemberships(RemoveMembership(org, user));
      return Applied({org});
    }

    /** A bootstrap rotation ends every session of the user, the rotating one included, and the bootstrap itself. */
    method RotateBootstrapPassword(m: Mutation, now: int) returns (r: Outcome)
      requires Valid() && m.RotateBootstrap?
      modifies this
      ensures r == Judge(old(Contents()), m, now)
      ensures MutationDecided(old(Contents()), Contents(), m, now, r)
      ensures Contents() == Mutated(old(Contents()), m, now) && logins == old(logins)
      ensures Valid()
      ensures r.Applied? ==>
                && NoneAuthenticates(Contents(), m) && LoginsOverrun(users, logins, m)
                && forall u | u in users && u.id == m.user :: u.bootstrapExpiresAt.None? && u.passwordHash == m.hash
      ensures forall o | old(HasActiveOwner(users, o)) :: HasActiveOwner(users, o)
    {
      hide Inv, HasActiveOwner, NoneAuthenticates, LoginsOverrun, OrganizationsOf, MutationDecided, UniqueRows;
      UniqueRowsOf(Contents(), logins);
      MutationDecides(Contents(), m, now);
      MutationEndsAuthority(Contents(), logins, m, now);
      var current := FindRow(users, m.user, m.org);
      var session := FindRotation(userSessions, m, now);
      if current.None? || current.value.disabledAt.Some? || session.None? {
        return Forbidden;
      }
      for k := 0 to |users|
        invariant forall j | 0 <= j < k && users[j].id == m.user ::
                    && users[j].disabledAt.None? && users[j].passwordHash == m.expectedHash
                    && users[j].bootstrapExpiresAt == Some(m.expectedExpiry)
                    && users[j].authenticationEpoch == m.expectedAuthentication
      {
        var u := users[k];
        if u.id == m.user
           && (u.disabledAt.Some? || u.passwordHash != m.expectedHash || u.bootstrapExpiresAt != Some(m.expectedExpiry)
               || u.authenticationEpoch != m.expectedAuthentication)
        {
          return Forbidden;
        }
      }
      if m.expectedExpiry <= now
         || current.value.authorizationEpoch != m.expectedAuthorization
         || session.value.authenticationEpoch != m.expectedAuthentication
         || session.value.authorizationEpoch != m.expectedAuthorization
      {
        return Forbidden;
      }
      var organizations := OrganizationsOf(users, m.user);
      RewriteUsers(m, now);
      RevokeSessionsOf(m, now);
      return Applied(organizations);
    }

    /** The part of a login up to its lookup of the user. */
    method BeginUserSession(org: Id, user: Id, input: LoginInput, now: int) returns (l: Login)
      requires Valid()
      modifies `logins
      ensures l == BeginLogin(Contents(), org, user, input, now)
      ensures l.org == org && l.input == input && l.timestamp == now
      ensures forall u :: l.row == Some(u) <==> ActiveRow(users, org, user, u)
      ensures Valid() && logins == old(logins) + [l]
    {
      hide FindActive, ActiveRow;
      StepKeepsInv(Machine(Contents(), logins, []), Begin(org, user, input, now));
      forall u ensures FindActive(users, user, org) == Some(u) <==> ActiveRow(users, org, user, u) {
        ActiveRowIsFound(users, org, user, u);
      }
      var row := FindActive(users, user, org);
      l := Login(org, input, now, row);
      logins := logins + [l];
    }

    /**
     The part of a login after its lookup has come back. Its session authenticates the user until it
     expires if the row is as the login read it, and nobody once a mutation has moved the epochs on.
     */
    method CompleteUserSession(l: Login) returns (r: Option<Session>)
      requires Valid() && l in logins
      modifies `userSessions, `nextId
      ensures Contents() == FinishLogin(old(Contents()), l)
      ensures LoginDecided(old(Contents()), Contents(), r, l)
      ensures r == if LoginAccepted(l) then Some(SessionOf(l, old(nextId))) else None
      ensures Valid()
      ensures r.Some? && old(FreshToken(userSessions, r.value.user, l.org, l.input.token)) ==>
                forall at | at < r.value.expiresAt ::
                  && (FindActive(users, r.value.user, l.org) == l.row ==>
                        ActiveUser(Contents(), r.value.user, l.org, l.input.token, at) == l.row)
                  && (!Current(users, r.value.user, l.org, r.value.authenticationEpoch, r.value.authorizationEpoch) ==>
                        ActiveUser(Contents(), r.value.user, l.org, l.input.token, at) == None)
    {
      hide Inv, FindActive, ActiveUser, Current, FreshToken, LoginAccepted, LoginDecided;
      ghost var s := Contents();
      LoginDecides(s, l);
      FinishKeepsInv(s, logins, l);
      AcceptedRow(s, logins, l);
      if !LoginAccepted(l) {
        return None;
      }
      if FreshToken(userSessions, l.row.value.id, l.org, l.input.token) {
        forall at | at < l.input.expiresAt
          ensures FindActive(users, l.row.value.id, l.org) == l.row ==>
                    ActiveUser(FinishLogin(s, l), l.row.value.id, l.org, l.input.token, at) == l.row
          ensures !Current(users, l.row.value.id, l.org, l.row.value.authenticationEpoch,
                           l.row.value.authorizationEpoch) ==>
                    ActiveUser(FinishLogin(s, l), l.row.value.id, l.org, l.input.token, at) == None
        {
          LoginTakesEffect(s, l, at);
        }
      }
      var session := SessionOf(l, nextId);
      DropExpired(l.timestamp);
      userSessions := userSessions + [session];
      nextId := nextId + 1;
      return Some(session);
    }

    lemma {:induction false} FinishKeepsInv(s: State, logins: seq<Login>, l: Login)
      requires Inv(Machine(s, logins, [])) && l in logins
      ensures Inv(Machine(FinishLogin(s, l), logins, []))
    {
      hide Inv, FinishLogin;
      var k :| 0 <= k < |logins| && logins[k] == l;
      StepKeepsInv(Machine(s, logins, []), Finish(k));
    }

    lemma {:induction false} AcceptedRow(s: State, logins: seq<Login>, l: Login)
      requires Inv(Machine(s, logins, [])) && l in logins
      ensures LoginAccepted(l) ==> l.row.Some? && l.row.value.org == l.org
    {
      assert LoginReached(s.users, l);
    }

    lemma {:induction false} UnexpiredFrom(xs: seq<Session>, k: nat, now: int)
      ensures k < |xs| ==>
                Unexpired(xs[k..], now) == (if xs[k].expiresAt > now then [xs[k]] else []) + Unexpired(xs[k + 1..], now)
      ensures k == |xs| ==> Unexpired(xs[k..], now) == []
    {
      if k < |xs| { assert xs[k..][1..] == xs[k + 1..]; }
    }

    method DropExpired(now: int)
      modifies `userSessions
      ensures userSessions == Unexpired(old(userSessions), now)
    {
      hide Unexpired;
      var before := userSessions;
      var kept: seq<Session> := [];
      assert before[0..] == before;
      for k := 0 to |before|
        invariant kept + Unexpired(before[k..], now) == Unexpired(before, now)
      {
        UnexpiredFrom(before, k, now);
        if before[k].expiresAt > now {
          kept := kept + [before[k]];
        }
      }
      UnexpiredFrom(before, |before|, now);
      userSessions := kept;
    }

    /** The part of a logout up to its lookup of the user. */
    method BeginRevocation(user: Id, org: Id, token: Id, actor: Id, now: int) returns (o: Logout)
      ensures o == BeginLogout(Contents(), user, org, token, actor, now)
      ensures o.user == user && o.org == org && o.token == token && o.timestamp == now
      ensures o.allowed <==> actor == user && exists u :: ActiveRow(users, org, user, u)
    {
      hide FindActive, ActiveRow;
      LogoutBegins(Contents(), user, org, token, actor, now);
      var row := FindActive(users, user, org);
      o := Logout(user, org, token, now, row.Some? && actor == user);
    }

    /**
     The part of a logout after its lookup has come back. It takes effect exactly when it may and finds
     an unrevoked session that was unexpired when it began; a token held by one session authenticates
     nobody afterwards, at any time.
     */
    method RevokeUserSession(o: Logout) returns (revoked: bool)
      requires Valid()
      modifies `userSessions
      ensures Contents() == FinishLogout(old(Contents()), o)
      ensures LogoutDecided(old(Contents()), Contents(), revoked, o)
      ensures Valid()
      ensures revoked <==>
                && o.allowed
                && exists x :: x in old(userSessions) && Holds(x, o.user, o.org, o.token)
                               && x.revokedAt.None? && o.timestamp < x.expiresAt
      ensures revoked && old(OneSession(userSessions, o.user, o.org, o.token)) ==>
                forall at :: ActiveUser(Contents(), o.user, o.org, o.token, at) == None
      ensures !revoked ==> Contents() == old(Contents())
    {
      hide Inv, OneSession, FindSession, ActiveUser, TokenRevoked, LogoutDecided;
      ghost var s := Contents();
      LogoutDecides(s, o);
      LogoutKeepsInv(s, logins, o);
      SessionFound(userSessions, o);
      var k := FindSession(userSessions, o.user, o.org, o.token, o.timestamp);
      if k.None? || !o.allowed {
        return false;
      }
      if OneSession(userSessions, o.user, o.org, o.token) {
        LogoutRevokes(s, o);
        forall at ensures ActiveUser(FinishLogout(s, o), o.user, o.org, o.token, at) == None {
          RevokedIsNotFound(FinishLogout(s, o), o.user, o.org, o.token, at);
        }
      }
      userSessions := userSessions[k.value := userSessions[k.value].(revokedAt := Some(o.timestamp))];
      return true;
    }

    lemma {:induction false} LogoutKeepsInv(s: State, logins: seq<Login>, o: Logout)
      requires Inv(Machine(s, logins, []))
      ensures Inv(Machine(FinishLogout(s, o), logins, []))
    {
      hide FinishLogout;
      StepKeepsInv(Machine(s, logins, [o]), Left(0));
      assert Step(Machine(s, logins, [o]), Left(0)).store == FinishLogout(s, o);
    }

    lemma {:induction false} SessionFound(xs: seq<Session>, o: Logout)
      ensures FindSession(xs, o.user, o.org, o.token, o.timestamp).Some? <==>
                exists x ::
                  x in xs && Holds(x, o.user, o.org, o.token) && x.revokedAt.None? && o.timestamp < x.expiresAt
    {
      var k := FindSession(xs, o.user, o.org, o.token, o.timestamp);
      if k.Some? {
        assert xs[k.value] in xs && Holds(xs[k.value], o.user, o.org, o.token);
      } else if xs != [] {
        SessionFound(xs[1..], o);
        assert xs == [xs[0]] + xs[1..];
      }
    }
  }
}
