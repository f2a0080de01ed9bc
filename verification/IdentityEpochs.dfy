/** Identity mutations only move epochs forward, and leave an organization its owner. */
module IdentityEpochs {
  import opened Common
  import opened Identity

  // ------------------------------------------------------------------ epochs only move forward

  ghost predicate UniqueRows(users: seq<User>) {
    forall i, j | 0 <= i < j < |users| :: !(users[i].id == users[j].id && users[i].org == users[j].org)
  }

  /** Every row of the user in the organization has reached the given epochs. */
  ghost predicate Reached(users: seq<User>, user: Id, org: Id, authentication: nat, authorization: nat) {
    forall u | u in users && IsRow(u, user, org) ::
      u.authenticationEpoch >= authentication && u.authorizationEpoch >= authorization
  }

  /** ... and has gone beyond one of them; so no row holds exactly these epochs again. */
  ghost predicate Outdated(users: seq<User>, user: Id, org: Id, authentication: nat, authorization: nat) {
    forall u | u in users && IsRow(u, user, org) ::
      && u.authenticationEpoch >= authentication && u.authorizationEpoch >= authorization
      && (u.authenticationEpoch > authentication || u.authorizationEpoch > authorization)
  }

  /** Some active row of the user in the organization holds exactly these epochs. */
  ghost predicate Current(users: seq<User>, user: Id, org: Id, authentication: nat, authorization: nat) {
    exists u :: u in users && IsRow(u, user, org) && u.disabledAt.None?
                && u.authenticationEpoch == authentication && u.authorizationEpoch == authorization
  }

  /** Each row after a mutation comes from a row before it, whose epochs it keeps or passes. */
  lemma {:induction false} RowsComeFromRows(s: State, m: Mutation, now: int, u: User) returns (before: User)
    requires u in Mutated(s, m, now).users
    ensures before in s.users && IsRow(before, u.id, u.org)
    ensures u.authenticationEpoch >= before.authenticationEpoch && u.authorizationEpoch >= before.authorizationEpoch
    ensures Judge(s, m, now).Applied? && Concerns(m, u.id, u.org) ==>
              u.authenticationEpoch > before.authenticationEpoch || u.authorizationEpoch > before.authorizationEpoch
    ensures !Concerns(m, u.id, u.org) ==> u == before
  {
    hide Judge;
    if !Judge(s, m, now).Applied? || m.RemoveMembership? {
      before := u;
    } else {
      var k :| 0 <= k < |s.users| && Mutated(s, m, now).users[k] == u;
      before := s.users[k];
    }
  }

  lemma {:induction false} MutationAdvances(
      s: State, m: Mutation, now: int, user: Id, org: Id, authentication: nat, authorization: nat)
    requires Reached(s.users, user, org, authentication, authorization)
    ensures var users := Mutated(s, m, now).users;
            && Reached(users, user, org, authentication, authorization)
            && (Judge(s, m, now).Applied? && Concerns(m, user, org) ==>
                  Outdated(users, user, org, authentication, authorization))
            && (Outdated(s.users, user, org, authentication, authorization) ==>
                  Outdated(users, user, org, authentication, authorization))
  {
    hide Judge, Mutated;
    forall u | u in Mutated(s, m, now).users && IsRow(u, user, org)
      ensures u.authenticationEpoch >= authentication && u.authorizationEpoch >= authorization
      ensures (Judge(s, m, now).Applied? && Concerns(m, user, org))
              || Outdated(s.users, user, org, authentication, authorization) ==>
                u.authenticationEpoch > authentication || u.authorizationEpoch > authorization
    {
      var before := RowsComeFromRows(s, m, now, u);
    }
  }

  /** A mutation that is not about the user in the organization leaves the row alone. */
  lemma {:induction false} UnconcernedKeepsCurrent(
      s: State, m: Mutation, now: int, user: Id, org: Id, authentication: nat, authorization: nat)
    requires !Concerns(m, user, org) || !Judge(s, m, now).Applied?
    requires Current(s.users, user, org, authentication, authorization)
    ensures Current(Mutated(s, m, now).users, user, org, authentication, authorization)
  {
    hide Judge;
    var u :| u in s.users && IsRow(u, user, org) && u.disabledAt.None?
             && u.authenticationEpoch == authentication && u.authorizationEpoch == authorization;
    if Judge(s, m, now).Applied? && !m.RemoveMembership? {
      var k :| 0 <= k < |s.users| && s.users[k] == u;
      assert RewriteRows(s.users, m, now)[k] == u;
    }
    assert u in Mutated(s, m, now).users;
  }

  /** An organization that has an active owner keeps one through every mutation. */
  lemma {:induction false} OwnerContinuity(s: State, m: Mutation, now: int, org: Id)
    requires UniqueRows(s.users) && HasActiveOwner(s.users, org)
    ensures HasActiveOwner(Mutated(s, m, now).users, org)
  {
    var owner :| owner in s.users && IsActiveOwner(owner, org);
    var k :| 0 <= k < |s.users| && s.users[k] == owner;
    if Judge(s, m, now).Applied? {
      if Concerns(m, owner.id, org) && (m.DisableUser? || m.ChangeRole? || m.RemoveMembership?) {
        UniqueFind(s.users, k);
        if !(m.ChangeRole? && m.role == Owner) {
          assert HasOtherActiveOwner(s.users, org, owner.id);
          var j :| 0 <= j < |s.users| && IsActiveOwner(s.users[j], org) && s.users[j].id != owner.id;
          OwnerStays(s, m, now, org, j);
        } else {
          OwnerStays(s, m, now, org, k);
        }
      } else {
        OwnerStays(s, m, now, org, k);
      }
    }
  }

  lemma {:induction false} UniqueFind(users: seq<User>, k: nat)
    requires UniqueRows(users) && k < |users|
    ensures FindRow(users, users[k].id, users[k].org) == Some(users[k])
  {
    if k > 0 {
      UniqueFind(users[1..], k - 1);
    }
  }

  lemma {:induction false} OwnerStays(s: State, m: Mutation, now: int, org: Id, k: nat)
    requires k < |s.users| && IsActiveOwner(s.users[k], org) && Judge(s, m, now).Applied?
    requires !Concerns(m, s.users[k].id, org) || m.RotatePassword? || m.RotateBootstrap?
             || (m.ChangeRole? && m.role == Owner)
    ensures HasActiveOwner(Mutated(s, m, now).users, org)
  {
    hide Judge;
    var users := Mutated(s, m, now).users;
    if m.RemoveMembership? {
      assert s.users[k] in users;
    } else {
      assert users[k] in users && IsActiveOwner(users[k], org);
    }
  }

  lemma {:induction false} RemoveRowsUnique(users: seq<User>, m: Mutation)
    requires UniqueRows(users)
    ensures UniqueRows(RemoveRows(users, m))
  {
    if users != [] {
      RemoveRowsUnique(users[1..], m);
      var rest := RemoveRows(users[1..], m);
      forall k | 0 <= k < |rest| ensures !(rest[k].id == users[0].id && rest[k].org == users[0].org) {
        assert rest[k] in rest;
        var j :| 0 <= j < |users[1..]| && users[1..][j] == rest[k];
        assert users[j + 1] == rest[k];
      }
    }
  }

  lemma {:induction false} MutationKeepsUniqueRows(s: State, m: Mutation, now: int)
    requires UniqueRows(s.users)
    ensures UniqueRows(Mutated(s, m, now).users)
  {
    hide Judge;
    RemoveRowsUnique(s.users, m);
    var users := RewriteRows(s.users, m, now);
    assert forall k | 0 <= k < |users| :: users[k].id == s.users[k].id && users[k].org == s.users[k].org;
  }

  lemma {:induction false} FoundIsReached(users: seq<User>, user: Id, org: Id)
    requires UniqueRows(users)
    ensures var r := FindActive(users, user, org);
            r.Some? ==> Reached(users, user, org, r.value.authenticationEpoch, r.value.authorizationEpoch)
  {
    var r := FindActive(users, user, org);
    forall u | r.Some? && u in users && IsRow(u, user, org) ensures u == r.value {
      var i :| 0 <= i < |users| && users[i] == u;
      var j :| 0 <= j < |users| && users[j] == r.value;
    }
  }

  lemma {:induction false} OutdatedIsNotCurrent(
      users: seq<User>, user: Id, org: Id, authentication: nat, authorization: nat)
    requires Outdated(users, user, org, authentication, authorization)
    ensures !Current(users, user, org, authentication, authorization)
  {
  }
}
