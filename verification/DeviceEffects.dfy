/** The records a call on devices picks out and what becomes of them, in terms of the stored fields alone. */
module DeviceEffects {
  import opened Common
  import opened Batches
  import opened Devices
  import opened DeviceInvariants
  import opened Authority
  import Identity

  const ONE_DAY := 86_400_000
  const THIRTY_DAYS := 2_592_000_000

  // ------------------------------------------------------------------ who acts, and for whom

  ghost predicate Administers(users: seq<Identity.User>, org: Id, user: Id) {
    ActsAs(users, org, user, {Identity.Owner, Identity.Admin})
  }

  /** The issuer still acts as owner or admin, in the same membership and epochs. */
  ghost predicate StandsBehind(users: seq<Identity.User>, org: Id, i: Issuer) {
    exists u ::
      && ActiveRow(users, org, i.user, u) && u.role in {Identity.Owner, Identity.Admin}
      && u.membership == i.membership && u.authenticationEpoch == i.authentication
      && u.authorizationEpoch == i.authorization
  }

  lemma {:induction false} AdministratorActs(users: seq<Identity.User>, org: Id, user: Id)
    ensures IsAdministrator(users, org, user) <==> Administers(users, org, user)
  {
    hide Identity.FindActive, ActsAs;
    ActingIsFound(users, org, user, {Identity.Owner, Identity.Admin});
  }

  lemma {:induction false} IssuerStands(users: seq<Identity.User>, org: Id, i: Issuer)
    ensures IssuerCurrent(users, org, i) <==> StandsBehind(users, org, i)
  {
    hide Identity.FindActive, ActiveRow;
    var found := Identity.FindActive(users, i.user, org);
    if found.Some? { ActiveRowIsFound(users, org, i.user, found.value); }
    if StandsBehind(users, org, i) {
      var u :| ActiveRow(users, org, i.user, u) && u.role in {Identity.Owner, Identity.Admin}
               && u.membership == i.membership && u.authenticationEpoch == i.authentication
               && u.authorizationEpoch == i.authorization;
      ActiveRowIsFound(users, org, i.user, u);
    }
  }

  /** The issuer a new grant records: the administrator's row as it is. */
  ghost predicate IssuedFor(users: seq<Identity.User>, org: Id, user: Id, i: Issuer) {
    exists u ::
      ActiveRow(users, org, user, u)
      && i == Issuer(user, u.membership, u.authenticationEpoch, u.authorizationEpoch)
  }

  lemma {:induction false} IssuerIsRow(users: seq<Identity.User>, org: Id, user: Id)
    requires IsAdministrator(users, org, user)
    ensures IssuedFor(users, org, user, IssuerOf(users, org, user))
  {
    hide Identity.FindActive, ActiveRow;
    var u := Identity.FindActive(users, user, org).value;
    ActiveRowIsFound(users, org, user, u);
  }

  // ------------------------------------------------------------------ what is stored

  ghost predicate StoredScreen(screens: seq<Screen>, org: Id, id: Id) {
    id < |screens| && !screens[id].deleted && screens[id].org == org
  }

  ghost predicate LiveCode(grants: seq<Grant>, k: nat, code: Id, now: int) {
    k < |grants| && !grants[k].pruned && grants[k].status == Pending && grants[k].codeHash == code
    && now < grants[k].expiresAt
  }

  ghost predicate CodeIsLive(grants: seq<Grant>, code: Id, now: int) {
    exists k: nat :: LiveCode(grants, k, code, now)
  }

  ghost predicate KeySpent(credentials: seq<Credential>, key: Id) {
    exists k: nat :: k < |credentials| && credentials[k].key == key
  }

  ghost predicate Unended(expiresAt: Option<int>, now: int) { expiresAt == None || now < expiresAt.value }

  /** The credential is attached, unrevoked and unexpired, and its screen is stored. */
  ghost predicate CanAuthenticate(s: State, c: Id, now: int) {
    && c < |s.credentials| && !s.credentials[c].detached && s.credentials[c].revokedAt == None
    && Unended(s.credentials[c].expiresAt, now)
    && StoredScreen(s.screens, s.credentials[c].org, s.credentials[c].screen)
  }

  lemma {:induction false} CodeIsTaken(grants: seq<Grant>, code: Id, now: int)
    ensures CodeTaken(grants, code, now) <==> CodeIsLive(grants, code, now)
  {
    if CodeTaken(grants, code, now) {
      var k :| 0 <= k < |grants| && CodeInUse(grants[k], code, now);
      assert LiveCode(grants, k, code, now);
    }
    if CodeIsLive(grants, code, now) {
      var k: nat :| LiveCode(grants, k, code, now);
      assert CodeInUse(grants[k], code, now);
    }
  }

  lemma {:induction false} KeyIsSpent(credentials: seq<Credential>, key: Id)
    ensures HasKey(credentials, key) <==> KeySpent(credentials, key)
  {
  }

  lemma {:induction false} SpentMeansUsed(s: State, key: Id, now: int)
    requires Inv(s, now)
    ensures key in s.usedKeys <==> KeySpent(s.credentials, key)
  {
    hide GrantsSound, GrantsBehind, OriginsClaimed, IssuersCurrent, Shaped, LiveBounded;
    KeyIsSpent(s.credentials, key);
  }

  // ------------------------------------------------------------------ grants that are closed

  ghost function PendingGrants(grants: seq<Grant>, screen: Id): set<nat> {
    set k: nat | k < |grants| && !grants[k].pruned && grants[k].status == Pending
                 && grants[k].target.Some? && grants[k].target.value.screen == screen
  }

  ghost function PendingEnrollments(grants: seq<Grant>, org: Id, screen: Id): set<nat> {
    set k: nat | k < |grants| && !grants[k].pruned && grants[k].status == Pending && grants[k].org == org
                 && grants[k].target.Some? && grants[k].target.value.screen == screen
                 && grants[k].target.value.purpose == Enroll
  }

  ghost function PendingIssued(grants: seq<Grant>, user: Id, orgs: set<Id>): set<nat> {
    set k: nat | k < |grants| && !grants[k].pruned && grants[k].status == Pending && grants[k].org in orgs
                 && grants[k].target.Some? && grants[k].target.value.issuer.user == user
  }

  ghost predicate GrantsRevoked(gs: seq<Grant>, hs: seq<Grant>, revoked: set<nat>) {
    |hs| == |gs| && forall k: nat | k < |gs| :: hs[k] == if k in revoked then gs[k].(status := Revoked) else gs[k]
  }

  /** Of the grants' attempts, the ones not bound to a credential. */
  ghost function UnboundAttempts(attempts: seq<Attempt>, grants: set<nat>): set<nat> {
    set k: nat | k < |attempts| && !attempts[k].pruned && attempts[k].grant in grants && attempts[k].bound == None
  }

  ghost function UnconsumedAttempts(attempts: seq<Attempt>, grants: set<nat>): set<nat> {
    set k: nat | k < |attempts| && !attempts[k].pruned && attempts[k].grant in grants && !attempts[k].consumed
  }

  ghost predicate AttemptsCancelled(as_: seq<Attempt>, bs: seq<Attempt>, cancelled: set<nat>) {
    && |bs| == |as_|
    && forall k: nat | k < |as_| :: bs[k] == if k in cancelled then as_[k].(cancelled := true) else as_[k]
  }

  /** The grants a selector picks, by position. */
  ghost function Selected(grants: seq<Grant>, sel: Selector): set<nat> {
    set k: nat | k < |grants| && Selects(sel, k, grants[k])
  }

  lemma {:induction false} RevokingIs(s: State, sel: Selector, cancel: Cancel)
    ensures var t, revoked := RevokedState(s, sel, cancel), Selected(s.grants, sel);
            && t == s.(grants := t.grants, attempts := t.attempts)
            && GrantsRevoked(s.grants, t.grants, revoked)
            && (cancel.Unbound? ==> AttemptsCancelled(s.attempts, t.attempts, UnboundAttempts(s.attempts, revoked)))
            && (cancel.Unconsumed? ==>
                  AttemptsCancelled(s.attempts, t.attempts, UnconsumedAttempts(s.attempts, revoked)))
            && (cancel.Nothing? ==> t.attempts == s.attempts)
  {
    hide Selects;
  }

  lemma {:induction false} SelectedAre(s: State, org: Id, screen: Id, user: Id, orgs: set<Id>)
    ensures Selected(s.grants, Targeting(screen)) == PendingGrants(s.grants, screen)
    ensures Selected(s.grants, EnrollingIn(org, screen)) == PendingEnrollments(s.grants, org, screen)
    ensures Selected(s.grants, IssuedBy(user, orgs)) == PendingIssued(s.grants, user, orgs)
  {
  }

  /** A grant for a stored screen is of the screen's organization. */
  lemma {:induction false} SelectedInOrganization(s: State, org: Id, screen: Id, now: int)
    requires Inv(s, now) && StoredScreen(s.screens, org, screen)
    ensures Selected(s.grants, TargetingIn(org, screen)) == PendingGrants(s.grants, screen)
  {
    hide GrantsSound, GrantsBehind, OriginsClaimed, IssuersCurrent, DevicesSound;
  }

  // ------------------------------------------------------------------ credentials that are detached

  ghost function AttachedOn(credentials: seq<Credential>, screen: Id): set<nat> {
    set k: nat | k < |credentials| && credentials[k].screen == screen && !credentials[k].detached
  }

  ghost function EverAttached(credentials: seq<Credential>, screen: Id): set<nat> {
    set k: nat | k < |credentials| && credentials[k].screen == screen
  }

  ghost predicate CredentialsDetached(cs: seq<Credential>, ds: seq<Credential>, gone: set<nat>, now: int) {
    && |ds| == |cs|
    && forall k: nat | k < |cs| ::
         ds[k] == if k in gone
                  then cs[k].(detached := true,
                              revokedAt := if cs[k].revokedAt.Some? then cs[k].revokedAt else Some(now))
                  else cs[k]
  }

  /** The open challenges of the credentials are consumed. */
  ghost predicate ChallengesSpent(cs: seq<Challenge>, ds: seq<Challenge>, gone: set<nat>, now: int) {
    && |ds| == |cs|
    && forall k: nat | k < |cs| ::
         ds[k] == if cs[k].credential in gone && !cs[k].pruned && cs[k].consumedAt == None && now < cs[k].expiresAt
                  then cs[k].(consumedAt := Some(now)) else cs[k]
  }

  ghost function PickedOnes(credentials: seq<Credential>, p: Picked): set<nat> {
    set k: nat | k < |credentials| && Picks(p, k, credentials[k])
  }

  lemma {:induction false} DetachingIs(s: State, p: Picked, now: int)
    ensures var t, gone := DetachedState(s, p, now), PickedOnes(s.credentials, p);
            && t == s.(credentials := t.credentials, challenges := t.challenges)
            && CredentialsDetached(s.credentials, t.credentials, gone, now)
            && ChallengesSpent(s.challenges, t.challenges, gone, now)
  {
    hide Picks;
  }

  lemma {:induction false} PickedAre(s: State, org: Id, screen: Id, credential: nat, now: int)
    requires Inv(s, now) && StoredScreen(s.screens, org, screen)
    ensures PickedOnes(s.credentials, AttachedTo(org, screen)) == AttachedOn(s.credentials, screen)
    ensures PickedOnes(s.credentials, EverOn(org, screen)) == EverAttached(s.credentials, screen)
    ensures credential < |s.credentials| ==> PickedOnes(s.credentials, Single(credential)) == {credential}
  {
    hide GrantsSound, GrantsBehind, OriginsClaimed, IssuersCurrent, DevicesSound;
  }

  /** The screen has to enroll anew. */
  ghost predicate MovedOn(xs: seq<Screen>, ys: seq<Screen>, screen: Id) {
    screen < |xs| && ys == xs[screen := xs[screen].(generation := xs[screen].generation + 1, token := None)]
  }

  // ------------------------------------------------------------------ pruning

  ghost function PendingPast(grants: seq<Grant>, org: Id, now: int): nat -> bool {
    (k: nat) => k < |grants| && !grants[k].pruned && grants[k].org == org && grants[k].status == Pending
                && grants[k].expiresAt <= now
  }

  ghost function ClosedLongAgo(grants: seq<Grant>, org: Id, now: int): nat -> bool {
    (k: nat) => k < |grants| && !grants[k].pruned && grants[k].org == org && grants[k].status != Pending
                && grants[k].expiresAt <= now - THIRTY_DAYS
  }

  ghost function GrantsByExpiry(grants: seq<Grant>): Order {
    (i: nat, j: nat) => i < |grants| && j < |grants| &&
      (grants[i].expiresAt < grants[j].expiresAt || (grants[i].expiresAt == grants[j].expiresAt && i < j))
  }

  ghost function AnsweredPast(records: seq<EnrollmentRecord>, org: Id, now: int, keep: Option<Id>): nat -> bool {
    (k: nat) => k < |records| && records[k].org == org && Some(records[k].keyHash) != keep
                && records[k].response.Some? && records[k].expiresAt <= now
  }

  ghost function RecordsByExpiry(rs: seq<EnrollmentRecord>): Order {
    (i: nat, j: nat) => i < |rs| && j < |rs| &&
      (|| rs[i].expiresAt < rs[j].expiresAt
       || (rs[i].expiresAt == rs[j].expiresAt
           && (rs[i].keyHash < rs[j].keyHash || (rs[i].keyHash == rs[j].keyHash && i < j))))
  }

  /** The first hundred of the organization's pending grants past their expiry are closed. */
  ghost predicate FirstExpire(gs: seq<Grant>, hs: seq<Grant>, org: Id, now: int) {
    && |hs| == |gs|
    && exists expired: set<nat> ::
         && FirstFew(|gs|, PendingPast(gs, org, now), GrantsByExpiry(gs), expired, 100)
         && forall k: nat | k < |gs| :: hs[k] == if k in expired then gs[k].(status := Expired) else gs[k]
  }

  /** The first hundred of the organization's grants closed long ago are removed, with all their attempts. */
  ghost predicate FirstRemoved(
      gs: seq<Grant>, hs: seq<Grant>, as_: seq<Attempt>, bs: seq<Attempt>, org: Id, now: int)
  {
    && |hs| == |gs| && |bs| == |as_|
    && exists removed: set<nat> ::
         && FirstFew(|gs|, ClosedLongAgo(gs, org, now), GrantsByExpiry(gs), removed, 100)
         && (forall k: nat | k < |gs| :: hs[k] == if k in removed then gs[k].(pruned := true) else gs[k])
         && (forall k: nat | k < |as_| :: bs[k] == if as_[k].grant in removed then as_[k].(pruned := true) else as_[k])
  }

  /**
   The first hundred of the organization's answered records past their expiry lose their answer, save
   the one in use.
   */
  ghost predicate FirstForgotten(
      rs: seq<EnrollmentRecord>, ts: seq<EnrollmentRecord>, org: Id, now: int, keep: Option<Id>)
  {
    && |ts| == |rs|
    && exists forgotten: set<nat> ::
         && FirstFew(|rs|, AnsweredPast(rs, org, now, keep), RecordsByExpiry(rs), forgotten, 100)
         && forall k: nat | k < |rs| :: ts[k] == if k in forgotten then rs[k].(response := None) else rs[k]
  }

  /** The three maintenance steps of one organization. */
  ghost predicate Pruned(s: State, t: State, org: Id, now: int, keep: Option<Id>) {
    && t == s.(grants := t.grants, attempts := t.attempts, records := t.records)
    && FirstForgotten(s.records, t.records, org, now, keep)
    && exists closed :: FirstExpire(s.grants, closed, org, now)
                        && FirstRemoved(closed, t.grants, s.attempts, t.attempts, org, now)
  }

  lemma {:induction false} FirstAreExpired(gs: seq<Grant>, org: Id, now: int)
    ensures FirstExpire(gs, ExpiredGrants(gs, org, now), org, now)
  {
    var n, eligible, before := |gs|, PendingPast(gs, org, now), GrantsByExpiry(gs);
    var chosen := set k: nat | k < n && ExpiresNow(gs, org, now, k);
    forall i: nat | i < n
      ensures ExpiresNow(gs, org, now, i) <==> eligible(i) && |Ahead(n, eligible, before, i)| < 100
    {
      assert Ahead(n, eligible, before, i)
             == set j | 0 <= j < n && Expirable(gs[j], org, now) && ExpiresFirst(gs, j, i);
    }
    assert StrictOrder(before, n);
    FewAreFirst(n, eligible, before, chosen, 100);
  }

  lemma {:induction false} FirstAreRemoved(gs: seq<Grant>, as_: seq<Attempt>, org: Id, now: int)
    ensures FirstRemoved(gs, KeptGrants(gs, org, now), as_, KeptAttempts(as_, gs, org, now), org, now)
  {
    var n, eligible, before := |gs|, ClosedLongAgo(gs, org, now), GrantsByExpiry(gs);
    var chosen := set k: nat | k < n && RemovedNow(gs, org, now, k);
    forall i: nat | i < n
      ensures RemovedNow(gs, org, now, i) <==> eligible(i) && |Ahead(n, eligible, before, i)| < 100
    {
      assert Ahead(n, eligible, before, i)
             == set j | 0 <= j < n && Removable(gs[j], org, now) && ExpiresFirst(gs, j, i);
    }
    assert StrictOrder(before, n);
    FewAreFirst(n, eligible, before, chosen, 100);
  }

  lemma {:induction false} FirstAreForgotten(rs: seq<EnrollmentRecord>, org: Id, now: int, keep: Option<Id>)
    ensures FirstForgotten(rs, KeptRecords(rs, org, now, keep), org, now, keep)
  {
    var n, eligible, before := |rs|, AnsweredPast(rs, org, now, keep), RecordsByExpiry(rs);
    var chosen := set k: nat | k < n && ForgottenNow(rs, org, now, keep, k);
    forall i: nat | i < n
      ensures ForgottenNow(rs, org, now, keep, i) <==> eligible(i) && |Ahead(n, eligible, before, i)| < 100
    {
      assert Ahead(n, eligible, before, i)
             == set j | 0 <= j < n && Forgettable(rs[j], org, now, keep) && RecordFirst(rs, j, i);
    }
    assert StrictOrder(before, n);
    FewAreFirst(n, eligible, before, chosen, 100);
  }

  lemma {:induction false} PruningIs(s: State, org: Id, now: int, keep: Option<Id>)
    ensures Pruned(s, PrunedState(s, org, now, keep), org, now, keep)
  {
    hide ExpiredGrants, KeptGrants, KeptAttempts, KeptRecords, FirstExpire, FirstRemoved, FirstForgotten;
    FirstAreExpired(s.grants, org, now);
    FirstAreRemoved(ExpiredGrants(s.grants, org, now), s.attempts, org, now);
    FirstAreForgotten(s.records, org, now, keep);
  }

  // ------------------------------------------------------------------ challenges of a day ago

  ghost function DayOld(challenges: seq<Challenge>, now: int): nat -> bool {
    (k: nat) => k < |challenges| && !challenges[k].pruned && challenges[k].expiresAt <= now - ONE_DAY
  }

  ghost function ChallengesByExpiry(cs: seq<Challenge>): Order {
    (i: nat, j: nat) => i < |cs| && j < |cs| &&
      (cs[i].expiresAt < cs[j].expiresAt || (cs[i].expiresAt == cs[j].expiresAt && i < j))
  }

  /** The first hundred challenges that expired a day ago are dropped. */
  ghost predicate FirstDropped(cs: seq<Challenge>, ds: seq<Challenge>, now: int) {
    && |ds| == |cs|
    && exists dropped: set<nat> ::
         && FirstFew(|cs|, DayOld(cs, now), ChallengesByExpiry(cs), dropped, 100)
         && forall k: nat | k < |cs| :: ds[k] == if k in dropped then cs[k].(pruned := true) else cs[k]
  }

  lemma {:induction false} FirstAreDropped(cs: seq<Challenge>, now: int)
    ensures FirstDropped(cs, KeptChallenges(cs, now), now)
  {
    var n, eligible, before := |cs|, DayOld(cs, now), ChallengesByExpiry(cs);
    var chosen := set k: nat | k < n && DroppedNow(cs, now, k);
    forall i: nat | i < n ensures DroppedNow(cs, now, i) <==> eligible(i) && |Ahead(n, eligible, before, i)| < 100 {
      assert Ahead(n, eligible, before, i) == set j | 0 <= j < n && Old(cs[j], now) && ChallengeFirst(cs, j, i);
    }
    assert StrictOrder(before, n);
    FewAreFirst(n, eligible, before, chosen, 100);
  }
}
