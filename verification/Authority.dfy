/** Whose row a caller acts under, said by position. */
module Authority {
  import opened Common
  import opened Identity

  /** `u` is the first row of the user in the organization that is not disabled. */
  ghost predicate ActiveRow(users: seq<User>, org: Id, user: Id, u: User) {
    exists k: nat ::
      && k < |users| && users[k] == u
      && u.id == user && u.org == org && u.disabledAt.None?
      && forall j: nat | j < k :: !(users[j].id == user && users[j].org == org && users[j].disabledAt.None?)
  }

  /** The user acts in the organization under one of the roles. */
  ghost predicate ActsAs(users: seq<User>, org: Id, user: Id, roles: set<Role>) {
    exists u :: ActiveRow(users, org, user, u) && u.role in roles
  }

  /** The lookup finds exactly the row the user acts under. */
  lemma {:induction false} ActiveRowIsFound(users: seq<User>, org: Id, user: Id, u: User)
    ensures FindActive(users, user, org) == Some(u) <==> ActiveRow(users, org, user, u)
  {
    if users != [] {
      var rest := users[1..];
      ActiveRowIsFound(rest, org, user, u);
      if users[0].id == user && users[0].org == org && users[0].disabledAt.None? {
        if FindActive(users, user, org) == Some(u) { assert users[0] == u; }
      } else {
        if ActiveRow(rest, org, user, u) {
          var k: nat :| k < |rest| && rest[k] == u && u.id == user && u.org == org && u.disabledAt.None?
            && forall j: nat | j < k :: !(rest[j].id == user && rest[j].org == org && rest[j].disabledAt.None?);
          forall j: nat | j < k + 1
            ensures !(users[j].id == user && users[j].org == org && users[j].disabledAt.None?)
          {
            if j > 0 { assert users[j] == rest[j - 1]; }
          }
          assert users[k + 1] == u;
        }
        if ActiveRow(users, org, user, u) {
          var k: nat :| k < |users| && users[k] == u && u.id == user && u.org == org && u.disabledAt.None?
            && forall j: nat | j < k :: !(users[j].id == user && users[j].org == org && users[j].disabledAt.None?);
          assert rest[k - 1] == u;
          forall j: nat | j < k - 1
            ensures !(rest[j].id == user && rest[j].org == org && rest[j].disabledAt.None?)
          {
            assert rest[j] == users[j + 1];
          }
        }
      }
    }
  }

  lemma {:induction false} ActingIsFound(users: seq<User>, org: Id, user: Id, roles: set<Role>)
    ensures ActsAs(users, org, user, roles) <==>
              var u := FindActive(users, user, org); u.Some? && u.value.role in roles
  {
    hide FindActive, ActiveRow;
    var found := FindActive(users, user, org);
    if found.Some? { ActiveRowIsFound(users, org, user, found.value); }
    if ActsAs(users, org, user, roles) {
      var u :| ActiveRow(users, org, user, u) && u.role in roles;
      ActiveRowIsFound(users, org, user, u);
    }
  }
}
