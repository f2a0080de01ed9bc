/** What identity mutations do to rows, sessions and logins, over any interleaving of requests. */
module IdentityRuns {
  import opened Common
  import opened Identity
  import opened IdentityEpochs

  // ------------------------------------------------------------------ interleaved requests

  /** The store together with the logins and logouts suspended in it. */
  datatype Machine = Machine(store: State, logins: seq<Login>, logouts: seq<Logout>)

  datatype Event =
    | Mutate(m: Mutation, now: int)
    | Begin(org: Id, user: Id, input: LoginInput, now: int)
    | Finish(login: nat)
    | Leave(user: Id, org: Id, token: Id, actor: Id, now: int)
    | Left(logout: nat)

  function Step(c: Machine, e: Event): Machine {
    match e
    case Mutate(m, now) => c.(store := Mutated(c.store, m, now))
    case Begin(org, user, input, now) => c.(logins := c.logins + [BeginLogin(c.store, org, user, input, now)])
    case Finish(k) => if k < |c.logins| then c.(store := FinishLogin(c.store, c.logins[k])) else c
    case Leave(user, org, token, actor, now) =>
      c.(logouts := c.logouts + [BeginLogout(c.store, user, org, token, actor, now)])
    case Left(k) => if k < |c.logouts| then c.(store := FinishLogout(c.store, c.logouts[k])) else c
  }

  function Run(c: Machine, es: seq<Event>): Machine
    decreases |es|
  {
    if es == [] then c else Run(Step(c, es[0]), es[1..])
  }

  /** An identity mutation about the user in the organization takes effect at this event. */
  predicate Hits(c: Machine, e: Event, user: Id, org: Id) {
    e.Mutate? && Concerns(e.m, user, org) && Judge(c.store, e.m, e.now).Applied?
  }

  predicate HitDuring(c: Machine, es: seq<Event>, user: Id, org: Id)
    decreases |es|
  {
    es != [] && (Hits(c, es[0], user, org) || HitDuring(Step(c, es[0]), es[1..], user, org))
  }

  ghost predicate SessionReached(users: seq<User>, x: Session) {
    Reached(users, x.user, x.org, x.authenticationEpoch, x.authorizationEpoch)
  }

  ghost predicate LoginReached(users: seq<User>, l: Login) {
    l.row.Some? ==> l.row.value.org == l.org
                    && Reached(users, l.row.value.id, l.org, l.row.value.authenticationEpoch,
                               l.row.value.authorizationEpoch)
  }

  /** Rows are unique, ids are fresh, and nothing stored is ahead of the rows it was read from. */
  ghost predicate Inv(c: Machine) {
    && UniqueRows(c.store.users)
    && (forall x | x in c.store.sessions :: x.id < c.store.nextId && SessionReached(c.store.users, x))
    && (forall l | l in c.logins :: LoginReached(c.store.users, l))
  }

  /** Sessions after a step are sessions of before, up to their revocation, or the one a login creates. */
  lemma {:induction false} SessionsComeFromSessions(c: Machine, e: Event, x: Session) returns (before: Session)
    requires x in Step(c, e).store.sessions
    ensures (before in c.store.sessions && x == before.(revokedAt := x.revokedAt)
             && (before.revokedAt.Some? ==> x == before))
            || (e.Finish? && e.login < |c.logins| && LoginAccepted(c.logins[e.login])
                && before == x == SessionOf(c.logins[e.login], c.store.nextId))
  {
    hide Judge, LoginAccepted, FindSession;
    var sessions := c.store.sessions;
    match e
    case Mutate(m, now) =>
      if Judge(c.store, m, now).Applied? {
        var k :| 0 <= k < |sessions| && RevokeSessions(sessions, m, now)[k] == x;
        before := sessions[k];
      } else { before := x; }
    case Begin(_, _, _, _) => before := x;
    case Finish(k) => before := x;
    case Leave(_, _, _, _, _) => before := x;
    case Left(_) =>
      var k :| 0 <= k < |sessions| && Step(c, e).store.sessions[k] == x;
      before := sessions[k];
  }

  lemma {:induction false} StepKeepsInv(c: Machine, e: Event)
    requires Inv(c)
    ensures Inv(Step(c, e))
  {
    var d := Step(c, e);
    if e.Mutate? { MutationKeepsUniqueRows(c.store, e.m, e.now); }
    if e.Finish? && e.login < |c.logins| { assert c.logins[e.login] in c.logins; }
    forall x | x in d.store.sessions ensures x.id < d.store.nextId && SessionReached(d.store.users, x) {
      var before := SessionsComeFromSessions(c, e, x);
      StepKeepsEpochs(c, e, x.user, x.org, x.authenticationEpoch, x.authorizationEpoch);
      NextIdGrows(c, e);
    }
    forall l | l in d.logins ensures LoginReached(d.store.users, l) {
      if l.row.Some? {
        if l in c.logins {
          StepKeepsEpochs(c, e, l.row.value.id, l.org, l.row.value.authenticationEpoch, l.row.value.authorizationEpoch);
        } else {
          FoundIsReached(c.store.users, e.user, e.org);
        }
      }
    }
  }

  lemma {:induction false} NextIdGrows(c: Machine, e: Event)
    ensures Step(c, e).store.nextId >= c.store.nextId
  {
    hide Judge, LoginAccepted;
  }

  lemma {:induction false} StepKeepsEpochs(
      c: Machine, e: Event, user: Id, org: Id, authentication: nat, authorization: nat)
    requires Reached(c.store.users, user, org, authentication, authorization)
    ensures Reached(Step(c, e).store.users, user, org, authentication, authorization)
    ensures Hits(c, e, user, org) || Outdated(c.store.users, user, org, authentication, authorization) ==>
              Outdated(Step(c, e).store.users, user, org, authentication, authorization)
    ensures !Hits(c, e, user, org) && Current(c.store.users, user, org, authentication, authorization) ==>
              Current(Step(c, e).store.users, user, org, authentication, authorization)
  {
    hide Judge, Mutated, LoginAccepted;
    if e.Mutate? {
      MutationAdvances(c.store, e.m, e.now, user, org, authentication, authorization);
      if !Hits(c, e, user, org) && Current(c.store.users, user, org, authentication, authorization) {
        UnconcernedKeepsCurrent(c.store, e.m, e.now, user, org, authentication, authorization);
      }
    }
  }

  /** Epochs read at the start of a run are current at its end exactly when no mutation hit the row. */
  lemma {:induction false} CurrentUntilHit(
      c: Machine, es: seq<Event>, user: Id, org: Id, authentication: nat, authorization: nat)
    requires Reached(c.store.users, user, org, authentication, authorization)
    ensures Reached(Run(c, es).store.users, user, org, authentication, authorization)
    ensures HitDuring(c, es, user, org) || Outdated(c.store.users, user, org, authentication, authorization) ==>
              Outdated(Run(c, es).store.users, user, org, authentication, authorization)
    ensures !HitDuring(c, es, user, org) && Current(c.store.users, user, org, authentication, authorization) ==>
              Current(Run(c, es).store.users, user, org, authentication, authorization)
    decreases |es|
  {
    if es != [] {
      StepKeepsEpochs(c, es[0], user, org, authentication, authorization);
      CurrentUntilHit(Step(c, es[0]), es[1..], user, org, authentication, authorization);
    }
  }

  // ------------------------------------------------------------------ sessions

  lemma {:induction false} RunKeepsInv(c: Machine, es: seq<Event>)
    requires Inv(c)
    ensures Inv(Run(c, es))
    decreases |es|
  {
    if es != [] {
      StepKeepsInv(c, es[0]);
      RunKeepsInv(Step(c, es[0]), es[1..]);
    }
  }

  /** An organization with an active owner has one after any run. */
  lemma {:induction false} OwnersRemain(c: Machine, es: seq<Event>, org: Id)
    requires Inv(c) && HasActiveOwner(c.store.users, org)
    ensures HasActiveOwner(Run(c, es).store.users, org)
    decreases |es|
  {
    hide HasActiveOwner, Judge, Mutated, LoginAccepted, FindSession;
    if es != [] {
      StepKeepsInv(c, es[0]);
      if es[0].Mutate? { OwnerContinuity(c.store, es[0].m, es[0].now, org); }
      OwnersRemain(Step(c, es[0]), es[1..], org);
    }
  }

  /** A token authenticates only through a session whose epochs are current. */
  lemma {:induction false} ActiveUserNeedsCurrent(s: State, user: Id, org: Id, token: Id, now: int)
    requires ActiveUser(s, user, org, token, now).Some?
    ensures var x := s.sessions[FindSession(s.sessions, user, org, token, now).value];
            x in s.sessions && Current(s.users, user, org, x.authenticationEpoch, x.authorizationEpoch)
  {
    hide FindSession;
    var u := FindActive(s.users, user, org).value;
    assert u in s.users;
  }

  /** The sessions made before an event, identified by their ids. */
  ghost predicate OldSessionsOutdated(users: seq<User>, sessions: seq<Session>, user: Id, org: Id, bound: Id) {
    forall x | x in sessions && x.id < bound && x.user == user && x.org == org ::
      Outdated(users, user, org, x.authenticationEpoch, x.authorizationEpoch)
  }

  lemma {:induction false} OldSessionsStayOutdated(c: Machine, es: seq<Event>, user: Id, org: Id, bound: Id)
    requires Inv(c) && bound <= c.store.nextId && OldSessionsOutdated(c.store.users, c.store.sessions, user, org, bound)
    ensures var d := Run(c, es).store; OldSessionsOutdated(d.users, d.sessions, user, org, bound)
    decreases |es|
  {
    if es != [] {
      var d := Step(c, es[0]);
      forall x | x in d.store.sessions && x.id < bound && x.user == user && x.org == org
        ensures Outdated(d.store.users, user, org, x.authenticationEpoch, x.authorizationEpoch)
      {
        var before := SessionsComeFromSessions(c, es[0], x);
        assert before in c.store.sessions;
        StepKeepsEpochs(c, es[0], user, org, x.authenticationEpoch, x.authorizationEpoch);
      }
      StepKeepsInv(c, es[0]);
      NextIdGrows(c, es[0]);
      OldSessionsStayOutdated(d, es[1..], user, org, bound);
    }
  }

  /**
   After a password rotation, disablement, role change or removal, no session made before it
   authenticates again, whatever happens next.
   */
  lemma {:induction false} MutationEndsSessions(
      c: Machine, m: Mutation, t: int, es: seq<Event>, user: Id, org: Id, token: Id, now: int)
    requires Inv(c) && Hits(c, Mutate(m, t), user, org)
    ensures var d := Run(Step(c, Mutate(m, t)), es).store;
            ActiveUser(d, user, org, token, now).Some? ==>
              d.sessions[FindSession(d.sessions, user, org, token, now).value].id >= c.store.nextId
  {
    hide Judge, Mutated, FindSession;
    var e := Mutate(m, t);
    var c' := Step(c, e);
    forall x | x in c'.store.sessions && x.id < c.store.nextId && x.user == user && x.org == org
      ensures Outdated(c'.store.users, user, org, x.authenticationEpoch, x.authorizationEpoch)
    {
      var before := SessionsComeFromSessions(c, e, x);
      StepKeepsEpochs(c, e, user, org, x.authenticationEpoch, x.authorizationEpoch);
    }
    StepKeepsInv(c, e);
    NextIdGrows(c, e);
    OldSessionsStayOutdated(c', es, user, org, c.store.nextId);
    var d := Run(c', es).store;
    if ActiveUser(d, user, org, token, now).Some? {
      ActiveUserNeedsCurrent(d, user, org, token, now);
      var x := d.sessions[FindSession(d.sessions, user, org, token, now).value];
      if x.id < c.store.nextId {
        OutdatedIsNotCurrent(d.users, user, org, x.authenticationEpoch, x.authorizationEpoch);
      }
    }
  }

  /**
   A login reads the user's row, is suspended, and goes on with what it read. It creates a session
   whatever has happened meanwhile; the session's epochs are current exactly when no mutation hit
   the row in between, and once one has, the session never authenticates.
   */
  lemma {:induction false} LoginOutlivedByMutation(
      c: Machine, org: Id, user: Id, input: LoginInput, now: int, es: seq<Event>)
    requires Inv(c) && LoginAccepted(BeginLogin(c.store, org, user, input, now))
    ensures var begun := Step(c, Begin(org, user, input, now));
            var d := Run(begun, es);
            var x := SessionOf(BeginLogin(c.store, org, user, input, now), d.store.nextId);
            && |c.logins| < |d.logins| && d.logins[|c.logins|] == BeginLogin(c.store, org, user, input, now)
            && x in Step(d, Finish(|c.logins|)).store.sessions
            && (Current(d.store.users, user, org, x.authenticationEpoch, x.authorizationEpoch) <==>
                  !HitDuring(begun, es, user, org))
            && (Outdated(d.store.users, user, org, x.authenticationEpoch, x.authorizationEpoch) <==>
                  HitDuring(begun, es, user, org))
  {
    hide LoginAccepted, Judge, Mutated;
    var l := BeginLogin(c.store, org, user, input, now);
    assert l.row.Some? by { LoginAcceptedHasRow(l); }
    var begun := Step(c, Begin(org, user, input, now));
    var u := l.row.value;
    FoundIsReached(c.store.users, user, org);
    assert Current(begun.store.users, user, org, u.authenticationEpoch, u.authorizationEpoch);
    CurrentUntilHit(begun, es, user, org, u.authenticationEpoch, u.authorizationEpoch);
    LoginsStay(begun, es, |c.logins|);
    var d := Run(begun, es);
    if HitDuring(begun, es, user, org) {
      OutdatedIsNotCurrent(d.store.users, user, org, u.authenticationEpoch, u.authorizationEpoch);
    }
    var sessions := Step(d, Finish(|c.logins|)).store.sessions;
    assert sessions[|sessions| - 1] == SessionOf(l, d.store.nextId);
  }

  /** A session with epochs that a mutation has outdated, however it came about, never authenticates again. */
  lemma {:induction false} OutdatedNeverAuthenticates(
      c: Machine, es: seq<Event>, user: Id, org: Id, authentication: nat, authorization: nat, token: Id, now: int)
    requires Outdated(c.store.users, user, org, authentication, authorization)
    ensures var d := Run(c, es).store;
            ActiveUser(d, user, org, token, now).Some? ==>
              var x := d.sessions[FindSession(d.sessions, user, org, token, now).value];
              !(x.authenticationEpoch == authentication && x.authorizationEpoch == authorization)
  {
    hide Run, FindSession;
    assert Reached(c.store.users, user, org, authentication, authorization);
    CurrentUntilHit(c, es, user, org, authentication, authorization);
    var d := Run(c, es).store;
    OutdatedIsNotCurrent(d.users, user, org, authentication, authorization);
    if ActiveUser(d, user, org, token, now).Some? { ActiveUserNeedsCurrent(d, user, org, token, now); }
  }

  /**
   An authentication looks up the session, is suspended, and looks up the user. It succeeds only if no
   mutation hit the user in between, so that none succeeds on authority that has just been withdrawn.
   */
  lemma {:induction false} LookupOutlivedByMutation(
      c: Machine, es: seq<Event>, user: Id, org: Id, token: Id, now: int)
    requires Inv(c) && FinishLookup(Run(c, es).store, BeginLookup(c.store, user, org, token, now), user, org, now).Some?
    ensures !HitDuring(c, es, user, org)
  {
    hide Run, HitDuring, FindSession;
    var x := BeginLookup(c.store, user, org, token, now).value;
    assert x in c.store.sessions && x.user == user && x.org == org;
    CurrentUntilHit(c, es, user, org, x.authenticationEpoch, x.authorizationEpoch);
    var users := Run(c, es).store.users;
    var u := FindActive(users, user, org).value;
    assert u in users && Current(users, user, org, x.authenticationEpoch, x.authorizationEpoch);
    if HitDuring(c, es, user, org) {
      OutdatedIsNotCurrent(users, user, org, x.authenticationEpoch, x.authorizationEpoch);
    }
  }

  lemma {:induction false} LoginAcceptedHasRow(l: Login)
    requires LoginAccepted(l)
    ensures l.row.Some?
  {
  }

  lemma {:induction false} LoginsStay(c: Machine, es: seq<Event>, k: nat)
    requires k < |c.logins|
    ensures k < |Run(c, es).logins| && Run(c, es).logins[k] == c.logins[k]
    decreases |es|
  {
    if es != [] {
      LoginsStay(Step(c, es[0]), es[1..], k);
    }
  }

  /** A login that asks for the epochs of a row read before a mutation hit it is refused. */
  lemma {:induction false} StaleSnapshotIsRefused(c: Machine, es: seq<Event>, u: User, input: LoginInput, now: int)
    requires Inv(c) && u in c.store.users && HitDuring(c, es, u.id, u.org)
    requires input.authentication == u.authenticationEpoch && input.authorization == u.authorizationEpoch
    ensures !LoginAccepted(BeginLogin(Run(c, es).store, u.org, u.id, input, now))
  {
    hide Judge, Mutated;
    var i :| 0 <= i < |c.store.users| && c.store.users[i] == u;
    forall v | v in c.store.users && IsRow(v, u.id, u.org) ensures v == u {
      var j :| 0 <= j < |c.store.users| && c.store.users[j] == v;
    }
    CurrentUntilHit(c, es, u.id, u.org, u.authenticationEpoch, u.authorizationEpoch);
    var row := FindActive(Run(c, es).store.users, u.id, u.org);
    assert row.Some? ==> row.value in Run(c, es).store.users;
  }

  // ------------------------------------------------------------------ logging out

  predicate Holds(x: Session, user: Id, org: Id, token: Id) { x.user == user && x.org == org && x.token == token }

  ghost predicate OneSession(sessions: seq<Session>, user: Id, org: Id, token: Id) {
    forall i, j | 0 <= i < j < |sessions| ::
      !(Holds(sessions[i], user, org, token) && Holds(sessions[j], user, org, token))
  }

  /** Every session with the token has been revoked. */
  ghost predicate TokenRevoked(sessions: seq<Session>, user: Id, org: Id, token: Id) {
    forall x | x in sessions && Holds(x, user, org, token) :: x.revokedAt.Some?
  }

  lemma {:induction false} RevokedIsNotFound(s: State, user: Id, org: Id, token: Id, at: int)
    requires TokenRevoked(s.sessions, user, org, token)
    ensures ActiveUser(s, user, org, token, at) == None
  {
    var k := FindSession(s.sessions, user, org, token, at);
    if k.Some? { assert Holds(s.sessions[k.value], user, org, token); }
  }

  /** A logout that finds the one session of its token leaves the token revoked. */
  lemma {:induction false} LogoutRevokes(s: State, o: Logout)
    requires o.allowed && FindSession(s.sessions, o.user, o.org, o.token, o.timestamp).Some?
    requires OneSession(s.sessions, o.user, o.org, o.token)
    ensures TokenRevoked(FinishLogout(s, o).sessions, o.user, o.org, o.token)
  {
    hide FindSession;
    var k := FindSession(s.sessions, o.user, o.org, o.token, o.timestamp).value;
    assert Holds(s.sessions[k], o.user, o.org, o.token);
  }

  /** A login of the user puts the token to use again at this event. */
  predicate Reissues(c: Machine, e: Event, user: Id, org: Id, token: Id) {
    && e.Finish? && e.login < |c.logins| && LoginAccepted(c.logins[e.login])
    && var l := c.logins[e.login]; l.row.value.id == user && l.org == org && l.input.token == token
  }

  predicate ReissuedDuring(c: Machine, es: seq<Event>, user: Id, org: Id, token: Id)
    decreases |es|
  {
    es != [] && (Reissues(c, es[0], user, org, token) || ReissuedDuring(Step(c, es[0]), es[1..], user, org, token))
  }

  lemma {:induction false} TokenStaysRevoked(c: Machine, es: seq<Event>, user: Id, org: Id, token: Id)
    requires TokenRevoked(c.store.sessions, user, org, token) && !ReissuedDuring(c, es, user, org, token)
    ensures TokenRevoked(Run(c, es).store.sessions, user, org, token)
    decreases |es|
  {
    hide Step, LoginAccepted;
    if es != [] {
      var d := Step(c, es[0]);
      forall x | x in d.store.sessions && Holds(x, user, org, token) ensures x.revokedAt.Some? {
        var before := SessionsComeFromSessions(c, es[0], x);
      }
      TokenStaysRevoked(d, es[1..], user, org, token);
    }
  }

  /**
   A logout is suspended at its lookup of the user and anything may happen meanwhile. If it then finds
   the one session of its token, the token authenticates nobody any more, over any continuation in
   which no login takes up the token again.
   */
  lemma {:induction false} LogoutLasts(c: Machine, k: nat, es: seq<Event>, at: int)
    requires k < |c.logouts| && c.logouts[k].allowed
    requires var o := c.logouts[k];
             && FindSession(c.store.sessions, o.user, o.org, o.token, o.timestamp).Some?
             && OneSession(c.store.sessions, o.user, o.org, o.token)
             && !ReissuedDuring(Step(c, Left(k)), es, o.user, o.org, o.token)
    ensures var o := c.logouts[k];
            ActiveUser(Run(Step(c, Left(k)), es).store, o.user, o.org, o.token, at) == None
  {
    hide FindSession, OneSession, ActiveUser, TokenRevoked, FinishLogout;
    var o := c.logouts[k];
    LogoutRevokes(c.store, o);
    assert Step(c, Left(k)).store == FinishLogout(c.store, o);
    TokenStaysRevoked(Step(c, Left(k)), es, o.user, o.org, o.token);
    RevokedIsNotFound(Run(Step(c, Left(k)), es).store, o.user, o.org, o.token, at);
  }

  // ------------------------------------------------------------------ an example

  lemma {:induction false} ThreeSteps(c: Machine, e: Event, f: Event, g: Event)
    ensures Run(c, [e, f, g]) == Step(Step(Step(c, e), f), g)
  {
    hide Step;
    var c1, c2, c3 := Step(c, e), Step(Step(c, e), f), Step(Step(Step(c, e), f), g);
    assert [e, f, g][1..] == [f, g] && [f, g][1..] == [g] && [g][1..] == [];
    assert Run(c3, []) == c3;
    assert Run(c2, [g]) == Run(c3, []);
    assert Run(c1, [f, g]) == Run(c2, [g]);
  }

  /** A session is created for a password that was rotated while the login was suspended. */
  lemma {:induction false} StaleLoginExample()
    ensures var row := User(1, 7, 1, Owner, None, 100, 0, 0, None);
            var input := LoginInput(55, 1000, Full, 100, Owner, 0, 0, None);
            var es := [Begin(7, 1, input, 10), Mutate(RotatePassword(1, 200), 20), Finish(0)];
            var d := Run(Machine(State([row], [], 0), [], []), es);
            && d.store.sessions == [Session(0, 7, 1, 55, 0, 0, Full, 1000, 10, None)]
            && d.store.users == [row.(passwordHash := 200, authenticationEpoch := 1)]
            && ActiveUser(d.store, 1, 7, 55, 30) == None
  {
    var row := User(1, 7, 1, Owner, None, 100, 0, 0, None);
    var input := LoginInput(55, 1000, Full, 100, Owner, 0, 0, None);
    var c := Machine(State([row], [], 0), [], []);
    var es := [Begin(7, 1, input, 10), Mutate(RotatePassword(1, 200), 20), Finish(0)];
    ThreeSteps(c, es[0], es[1], es[2]);
    hide Run;
    var c1 := Step(c, es[0]);
    assert c1.logins == [Login(7, input, 10, Some(row))];
    assert OrganizationsOf([row], 1) != {} by { assert [row][0].org in OrganizationsOf([row], 1); }
    var c2 := Step(c1, es[1]);
    assert c2.store.users == [row.(passwordHash := 200, authenticationEpoch := 1)];
  }
}
