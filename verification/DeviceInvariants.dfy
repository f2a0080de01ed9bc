/** What every operation on grants, attempts, credentials and challenges keeps. */
module DeviceInvariants {
  import opened Common
  import opened Devices
  import Identity
  import opened IdentityEpochs

  // ------------------------------------------------------------------ the invariant

  /** References point at records of the same organization. */
  ghost predicate Shaped(s: State) {
    && (forall i | 0 <= i < |s.credentials| ::
          s.credentials[i].screen < |s.screens| && s.credentials[i].org == s.screens[s.credentials[i].screen].org)
    && (forall i | 0 <= i < |s.grants| && s.grants[i].target.Some? ::
          s.grants[i].target.value.screen < |s.screens|
          && s.grants[i].org == s.screens[s.grants[i].target.value.screen].org)
    && (forall i | 0 <= i < |s.attempts| ::
          s.attempts[i].grant < |s.grants| && s.attempts[i].org == s.grants[s.attempts[i].grant].org)
    && (forall i | 0 <= i < |s.challenges| :: s.challenges[i].credential < |s.credentials|)
  }

  /** Key ids are pairwise distinct, and the burnt ones are exactly those of the credentials. */
  ghost predicate KeysBurnt(credentials: seq<Credential>, used: set<Id>) {
    && (forall i, j | 0 <= i < j < |credentials| :: credentials[i].key != credentials[j].key)
    && (forall k :: k in used <==> HasKey(credentials, k))
  }

  /** At most one attached credential on each screen. */
  ghost predicate OneAttached(credentials: seq<Credential>) {
    forall i, j | 0 <= i < j < |credentials| && !credentials[i].detached && !credentials[j].detached ::
      credentials[i].screen != credentials[j].screen
  }

  ghost predicate RevokedTogether(credentials: seq<Credential>) {
    forall i | 0 <= i < |credentials| :: credentials[i].detached <==> credentials[i].revokedAt.Some?
  }

  ghost predicate NoneAttached(credentials: seq<Credential>, screen: Id) {
    forall i | 0 <= i < |credentials| && credentials[i].screen == screen :: credentials[i].detached
  }

  /**
   A re-enrollment grant never expects a generation its screen has not reached, and while it is
   pending at exactly that generation, the screen has no attached credential.
   */
  ghost predicate GrantBehind(g: Grant, screens: seq<Screen>, credentials: seq<Credential>) {
    g.target.Some? && g.target.value.screen < |screens| ==>
      var t := g.target.value;
      && (t.purpose.Enroll? ==> t.expectedGeneration == 0)
      && (t.purpose.Reenroll? ==> 1 <= t.expectedGeneration <= screens[t.screen].generation)
      && (t.purpose.Reenroll? && g.status.Pending? && t.expectedGeneration == screens[t.screen].generation ==>
            NoneAttached(credentials, t.screen))
  }

  ghost predicate GrantsBehind(grants: seq<Grant>, screens: seq<Screen>, credentials: seq<Credential>) {
    forall i | 0 <= i < |grants| :: GrantBehind(grants[i], screens, credentials)
  }

  predicate PendingFor(g: Grant, screen: Id) { g.status.Pending? && g.target.Some? && g.target.value.screen == screen }

  /** At most one pending grant for each screen. */
  ghost predicate OnePending(grants: seq<Grant>) {
    forall i, j | 0 <= i < j < |grants| && grants[i].target.Some?
                  && PendingFor(grants[i], grants[i].target.value.screen) ::
      !PendingFor(grants[j], grants[i].target.value.screen)
  }

  predicate CodeLive(g: Grant, now: int) { g.status.Pending? && g.expiresAt > now }

  /** No two unexpired pending grants share a code. */
  ghost predicate CodesDistinct(grants: seq<Grant>, now: int) {
    forall i, j | 0 <= i < j < |grants| && CodeLive(grants[i], now) && CodeLive(grants[j], now) ::
      grants[i].codeHash != grants[j].codeHash
  }

  /** Only closed grants are removed, and attempts only with their grant. */
  ghost predicate PrunedTogether(grants: seq<Grant>, attempts: seq<Attempt>) {
    && (forall i | 0 <= i < |grants| && grants[i].pruned :: !grants[i].status.Pending?)
    && (forall i | 0 <= i < |attempts| && attempts[i].pruned && attempts[i].grant < |grants| ::
          grants[attempts[i].grant].pruned)
  }

  /** The attempt is the one a claimed grant was closed with. */
  predicate IsWinner(attempts: seq<Attempt>, grant: Id, w: nat) {
    w < |attempts| && attempts[w].grant == grant && attempts[w].bound.Some?
  }

  /** Exactly one bound attempt, and every other attempt of the grant cancelled. */
  ghost predicate WonBy(attempts: seq<Attempt>, grant: Id, w: nat) {
    && IsWinner(attempts, grant, w)
    && forall i | 0 <= i < |attempts| && attempts[i].grant == grant && i != w ::
         attempts[i].bound.None? && attempts[i].cancelled
  }

  ghost predicate WonOnce(grants: seq<Grant>, attempts: seq<Attempt>) {
    && (forall i | 0 <= i < |attempts| && attempts[i].grant < |grants| && attempts[i].bound.Some? ::
          grants[attempts[i].grant].status.Claimed?)
    && (forall g | 0 <= g < |grants| && grants[g].target.Some? && grants[g].status.Claimed? ::
          exists w :: WonBy(attempts, g, w))
  }

  /** A screen made through an open grant is the one screen that grant was claimed for. */
  ghost predicate OriginsClaimed(screens: seq<Screen>, grants: seq<Grant>) {
    forall i | 0 <= i < |screens| && screens[i].origin.Some? ::
      var g := screens[i].origin.value;
      g < |grants| && grants[g].target.None? && grants[g].status.Claimed? && grants[g].screen == Some(i)
  }

  ghost predicate IssuersCurrent(users: seq<Identity.User>, grants: seq<Grant>) {
    && UniqueRows(users)
    && forall i | 0 <= i < |grants| && grants[i].status.Pending? && grants[i].target.Some? ::
         IssuerCurrent(users, grants[i].org, grants[i].target.value.issuer)
  }

  ghost predicate ProvedBounded(attempts: seq<Attempt>) {
    forall g :: |ProvedAttempts(attempts, g)| <= LIMIT
  }

  ghost predicate OutstandingBounded(attempts: seq<Attempt>, now: int) {
    forall g, key :: |OutstandingAttempts(attempts, g, key, now)| <= LIMIT
  }

  ghost predicate LiveBounded(challenges: seq<Challenge>, now: int) {
    forall c, activity :: |LiveChallenges(challenges, c, activity, now)| <= LIMIT
  }

  ghost predicate DevicesSound(credentials: seq<Credential>, used: set<Id>, challenges: seq<Challenge>, now: int) {
    && KeysBurnt(credentials, used) && OneAttached(credentials) && RevokedTogether(credentials)
    && LiveBounded(challenges, now)
  }

  ghost predicate GrantsSound(grants: seq<Grant>, attempts: seq<Attempt>, now: int) {
    && OnePending(grants) && CodesDistinct(grants, now) && PrunedTogether(grants, attempts) && WonOnce(grants, attempts)
    && ProvedBounded(attempts) && OutstandingBounded(attempts, now)
  }

  ghost predicate Inv(s: State, now: int) {
    && Shaped(s)
    && DevicesSound(s.credentials, s.usedKeys, s.challenges, now)
    && GrantsSound(s.grants, s.attempts, now)
    && GrantsBehind(s.grants, s.screens, s.credentials)
    && OriginsClaimed(s.screens, s.grants)
    && IssuersCurrent(s.users, s.grants)
  }

  // ------------------------------------------------------------------ counting

  lemma {:induction false} SmallerSet(a: set<nat>, b: set<nat>)
    requires a <= b
    ensures |a| <= |b|
  {
    if a != b {
      var x :| x in b && x !in a;
      SmallerSet(a, b - {x});
    }
  }

  lemma {:induction false} OneMore(a: set<nat>, b: set<nat>, x: nat)
    requires a <= b + {x}
    ensures |a| <= |b| + 1
  {
    SmallerSet(a - {x}, b);
    assert a <= (a - {x}) + {x};
  }

  // ------------------------------------------------------------------ grants retire

  /** A grant may leave the pending state, or be removed once it is not pending; it is otherwise unchanged. */
  predicate GrantRetires(g: Grant, h: Grant) {
    && h == g.(status := h.status, pruned := h.pruned)
    && (h.status == g.status || (g.status.Pending? && (h.status.Revoked? || h.status.Expired?)))
    && (g.pruned ==> h.pruned) && (h.pruned && !g.pruned ==> !h.status.Pending?)
  }

  /** An attempt may be cancelled, or removed with its grant. */
  predicate AttemptRetires(a: Attempt, b: Attempt, grants: seq<Grant>) {
    && b == a.(cancelled := b.cancelled, pruned := b.pruned)
    && (a.cancelled ==> b.cancelled) && (a.pruned ==> b.pruned)
    && (b.pruned && !a.pruned ==> a.grant < |grants| && grants[a.grant].pruned)
  }

  ghost predicate Retires(gs: seq<Grant>, as_: seq<Attempt>, hs: seq<Grant>, bs: seq<Attempt>) {
    && |hs| == |gs| && |bs| == |as_|
    && (forall i | 0 <= i < |gs| :: GrantRetires(gs[i], hs[i]))
    && (forall i | 0 <= i < |as_| :: AttemptRetires(as_[i], bs[i], hs))
  }

  lemma {:induction false} RetiringKeepsGrants(
      gs: seq<Grant>, as_: seq<Attempt>, hs: seq<Grant>, bs: seq<Attempt>, now: int)
    requires GrantsSound(gs, as_, now) && Retires(gs, as_, hs, bs)
    ensures GrantsSound(hs, bs, now)
  {
    hide ProvedBounded, OutstandingBounded, WonOnce;
    RetiringKeepsWinners(gs, as_, hs, bs);
    RetiringKeepsCounts(gs, as_, hs, bs, now);
    forall i, j | 0 <= i < j < |hs| && hs[i].target.Some? && PendingFor(hs[i], hs[i].target.value.screen)
      ensures !PendingFor(hs[j], hs[i].target.value.screen)
    {
      assert GrantRetires(gs[i], hs[i]) && GrantRetires(gs[j], hs[j]);
    }
    forall i, j | 0 <= i < j < |hs| && CodeLive(hs[i], now) && CodeLive(hs[j], now)
      ensures hs[i].codeHash != hs[j].codeHash
    {
      assert GrantRetires(gs[i], hs[i]) && GrantRetires(gs[j], hs[j]);
    }
    forall i | 0 <= i < |hs| && hs[i].pruned ensures !hs[i].status.Pending? { assert GrantRetires(gs[i], hs[i]); }
    forall i | 0 <= i < |bs| && bs[i].pruned && bs[i].grant < |hs| ensures hs[bs[i].grant].pruned {
      assert AttemptRetires(as_[i], bs[i], hs) && GrantRetires(gs[as_[i].grant], hs[as_[i].grant]);
    }
  }

  lemma {:induction false} RetiringKeepsWinners(gs: seq<Grant>, as_: seq<Attempt>, hs: seq<Grant>, bs: seq<Attempt>)
    requires WonOnce(gs, as_) && Retires(gs, as_, hs, bs)
    ensures WonOnce(hs, bs)
  {
    forall i | 0 <= i < |bs| && bs[i].grant < |hs| && bs[i].bound.Some? ensures hs[bs[i].grant].status.Claimed? {
      assert AttemptRetires(as_[i], bs[i], hs) && GrantRetires(gs[as_[i].grant], hs[as_[i].grant]);
    }
    forall g | 0 <= g < |hs| && hs[g].target.Some? && hs[g].status.Claimed? ensures exists w :: WonBy(bs, g, w) {
      assert GrantRetires(gs[g], hs[g]);
      var w :| WonBy(as_, g, w);
      assert forall i | 0 <= i < |as_| :: AttemptRetires(as_[i], bs[i], hs);
      assert WonBy(bs, g, w);
    }
  }

  lemma {:induction false} RetiringKeepsCounts(
      gs: seq<Grant>, as_: seq<Attempt>, hs: seq<Grant>, bs: seq<Attempt>, now: int)
    requires Retires(gs, as_, hs, bs) && ProvedBounded(as_) && OutstandingBounded(as_, now)
    ensures ProvedBounded(bs) && OutstandingBounded(bs, now)
  {
    assert forall i | 0 <= i < |as_| :: AttemptRetires(as_[i], bs[i], hs);
    forall g ensures |ProvedAttempts(bs, g)| <= LIMIT {
      SmallerSet(ProvedAttempts(bs, g), ProvedAttempts(as_, g));
    }
    forall g, key ensures |OutstandingAttempts(bs, g, key, now)| <= LIMIT {
      SmallerSet(OutstandingAttempts(bs, g, key, now), OutstandingAttempts(as_, g, key, now));
    }
  }

  lemma {:induction false} RetiringKeepsInv(s: State, t: State, now: int)
    requires Inv(s, now) && t == s.(grants := t.grants, attempts := t.attempts, records := t.records)
    requires Retires(s.grants, s.attempts, t.grants, t.attempts)
    ensures Inv(t, now)
  {
    hide DevicesSound, GrantsSound, IssuerCurrent, UniqueRows;
    RetiringKeepsGrants(s.grants, s.attempts, t.grants, t.attempts, now);
    assert forall i | 0 <= i < |s.grants| :: GrantRetires(s.grants[i], t.grants[i]);
    assert forall i | 0 <= i < |s.attempts| :: AttemptRetires(s.attempts[i], t.attempts[i], t.grants);
    forall i | 0 <= i < |t.grants| ensures GrantBehind(t.grants[i], t.screens, t.credentials) {
      assert GrantBehind(s.grants[i], s.screens, s.credentials) && GrantRetires(s.grants[i], t.grants[i]);
    }
  }

  lemma {:induction false} RevokingRetires(s: State, sel: Selector, cancel: Cancel)
    ensures var t := RevokedState(s, sel, cancel);
            Retires(s.grants, s.attempts, t.grants, t.attempts) && t == s.(grants := t.grants, attempts := t.attempts)
  {
    hide Selects, LosesGrant;
    forall i | 0 <= i < |s.grants| ensures GrantRetires(s.grants[i], RevokedState(s, sel, cancel).grants[i]) {
      if Selects(sel, i, s.grants[i]) { SelectedIsPending(sel, i, s.grants[i]); }
    }
  }

  lemma {:induction false} SelectedIsPending(sel: Selector, i: nat, g: Grant)
    requires Selects(sel, i, g)
    ensures g.status.Pending? && !g.pruned
  {
  }

  lemma {:induction false} RevokingKeepsInv(s: State, sel: Selector, cancel: Cancel, now: int)
    requires Inv(s, now)
    ensures Inv(RevokedState(s, sel, cancel), now)
  {
    hide Inv, RevokedState;
    RevokingRetires(s, sel, cancel);
    RetiringKeepsInv(s, RevokedState(s, sel, cancel), now);
  }

  lemma {:induction false} ExpiringIs(grants: seq<Grant>, org: Id, now: int, i: nat)
    requires i < |grants| && ExpiresNow(grants, org, now, i)
    ensures grants[i].status.Pending? && grants[i].expiresAt <= now && grants[i].org == org && !grants[i].pruned
  {
  }

  lemma {:induction false} RemovingIs(grants: seq<Grant>, org: Id, now: int, i: nat)
    requires i < |grants| && RemovedNow(grants, org, now, i)
    ensures !grants[i].status.Pending? && !grants[i].pruned
  {
  }

  /** Pruning closes expired grants and removes closed ones; grants that are pending and unexpired stay as they are. */
  lemma {:induction false} PruningRetires(s: State, org: Id, now: int, keep: Option<Id>)
    ensures var t := PrunedState(s, org, now, keep);
            && Retires(s.grants, s.attempts, t.grants, t.attempts)
            && t == s.(grants := t.grants, attempts := t.attempts, records := t.records)
            && (forall i | 0 <= i < |s.grants| && CodeLive(s.grants[i], now) && !s.grants[i].pruned ::
                  t.grants[i] == s.grants[i])
            && (forall i | 0 <= i < |s.attempts| && s.attempts[i].grant < |s.grants|
                           && CodeLive(s.grants[s.attempts[i].grant], now) ::
                  t.attempts[i] == s.attempts[i])
  {
    hide ExpiresNow, RemovedNow, KeptRecords;
    var expired := ExpiredGrants(s.grants, org, now);
    var t := PrunedState(s, org, now, keep);
    forall i | 0 <= i < |s.grants|
      ensures GrantRetires(s.grants[i], t.grants[i])
      ensures CodeLive(s.grants[i], now) ==> t.grants[i] == s.grants[i] && !RemovedNow(expired, org, now, i)
    {
      if ExpiresNow(s.grants, org, now, i) { ExpiringIs(s.grants, org, now, i); }
      if RemovedNow(expired, org, now, i) { RemovingIs(expired, org, now, i); }
    }
  }

  lemma {:induction false} PruningKeepsInv(s: State, org: Id, now: int, keep: Option<Id>, at: int)
    requires Inv(s, at)
    ensures Inv(PrunedState(s, org, now, keep), at)
  {
    hide Inv, PrunedState;
    PruningRetires(s, org, now, keep);
    RetiringKeepsInv(s, PrunedState(s, org, now, keep), at);
  }

  // ------------------------------------------------------------------ credentials detach

  predicate CredentialDetaches(c: Credential, d: Credential) {
    && d == c.(detached := d.detached, revokedAt := d.revokedAt)
    && (c.detached ==> d.detached) && (c.revokedAt.Some? ==> d.revokedAt == c.revokedAt)
  }

  predicate ChallengeCloses(c: Challenge, d: Challenge) {
    && d == c.(consumedAt := d.consumedAt, pruned := d.pruned)
    && (c.consumedAt.Some? ==> d.consumedAt == c.consumedAt) && (c.pruned ==> d.pruned)
  }

  predicate ScreenAdvances(x: Screen, y: Screen) {
    && y == x.(generation := y.generation, installation := y.installation, token := y.token, deleted := y.deleted)
    && x.generation <= y.generation && (x.deleted ==> y.deleted)
  }

  ghost predicate Detaches(s: State, t: State) {
    && t == s.(screens := t.screens, credentials := t.credentials, challenges := t.challenges)
    && |t.screens| == |s.screens| && |t.credentials| == |s.credentials| && |t.challenges| == |s.challenges|
    && (forall i | 0 <= i < |s.screens| :: ScreenAdvances(s.screens[i], t.screens[i]))
    && (forall i | 0 <= i < |s.credentials| :: CredentialDetaches(s.credentials[i], t.credentials[i]))
    && (forall i | 0 <= i < |s.challenges| :: ChallengeCloses(s.challenges[i], t.challenges[i]))
  }

  lemma {:induction false} ClosingKeepsLiveBound(cs: seq<Challenge>, ds: seq<Challenge>, now: int)
    requires LiveBounded(cs, now) && |cs| == |ds| && forall i | 0 <= i < |cs| :: ChallengeCloses(cs[i], ds[i])
    ensures LiveBounded(ds, now)
  {
    forall c, activity ensures |LiveChallenges(ds, c, activity, now)| <= LIMIT {
      SmallerSet(LiveChallenges(ds, c, activity, now), LiveChallenges(cs, c, activity, now));
    }
  }

  lemma {:induction false} DetachingKeepsDevices(s: State, t: State, now: int)
    requires DevicesSound(s.credentials, s.usedKeys, s.challenges, now) && Detaches(s, t)
             && RevokedTogether(t.credentials)
    ensures DevicesSound(t.credentials, t.usedKeys, t.challenges, now)
  {
    hide LiveBounded;
    ClosingKeepsLiveBound(s.challenges, t.challenges, now);
    assert forall i | 0 <= i < |s.credentials| :: CredentialDetaches(s.credentials[i], t.credentials[i]);
    forall k ensures HasKey(s.credentials, k) <==> HasKey(t.credentials, k) {
      if HasKey(s.credentials, k) {
        var i :| 0 <= i < |s.credentials| && s.credentials[i].key == k;
        assert t.credentials[i].key == k;
      }
    }
  }

  lemma {:induction false} DetachingKeepsInv(s: State, t: State, now: int)
    requires Inv(s, now) && Detaches(s, t) && RevokedTogether(t.credentials)
    ensures Inv(t, now)
  {
    hide DevicesSound, GrantsSound, IssuersCurrent;
    DetachingKeepsDevices(s, t, now);
    assert forall i | 0 <= i < |s.screens| :: ScreenAdvances(s.screens[i], t.screens[i]);
    assert forall i | 0 <= i < |s.credentials| :: CredentialDetaches(s.credentials[i], t.credentials[i]);
    assert forall i | 0 <= i < |s.challenges| :: ChallengeCloses(s.challenges[i], t.challenges[i]);
    forall i | 0 <= i < |t.grants| ensures GrantBehind(t.grants[i], t.screens, t.credentials) {
      assert GrantBehind(s.grants[i], s.screens, s.credentials);
    }
  }

  lemma {:induction false} DetachedStateDetaches(s: State, p: Picked, now: int)
    requires RevokedTogether(s.credentials)
    ensures Detaches(s, DetachedState(s, p, now)) && RevokedTogether(DetachedState(s, p, now).credentials)
  {
    hide Picks, Invalidated;
    forall i | 0 <= i < |s.challenges| && Invalidated(s.credentials, p, s.challenges[i], now)
      ensures s.challenges[i].consumedAt.None?
    {
      InvalidatedWasOpen(s.credentials, p, s.challenges[i], now);
    }
  }

  lemma {:induction false} InvalidatedWasOpen(credentials: seq<Credential>, p: Picked, c: Challenge, now: int)
    requires Invalidated(credentials, p, c, now)
    ensures c.consumedAt.None?
  {
  }

  lemma {:induction false} RevokedTogetherIn(s: State, now: int)
    requires Inv(s, now)
    ensures RevokedTogether(s.credentials)
  {
  }

  lemma {:induction false} DetachedKeepsInv(s: State, p: Picked, now: int, at: int)
    requires Inv(s, at)
    ensures Inv(DetachedState(s, p, now), at)
  {
    hide Inv, DetachedState, Detaches, RevokedTogether;
    RevokedTogetherIn(s, at);
    DetachedStateDetaches(s, p, now);
    DetachingKeepsInv(s, DetachedState(s, p, now), at);
  }

  /** Replacing one screen by one that has moved on. */
  lemma {:induction false} AdvancingKeepsInv(s: State, screen: Id, x: Screen, now: int)
    requires Inv(s, now) && screen < |s.screens| && ScreenAdvances(s.screens[screen], x)
    ensures Inv(s.(screens := s.screens[screen := x]), now)
  {
    hide Inv, RevokedTogether;
    RevokedTogetherIn(s, now);
    DetachingKeepsInv(s, s.(screens := s.screens[screen := x]), now);
  }

  // ------------------------------------------------------------------ new grants

  lemma {:induction false} AddedGrantKeepsGrants(gs: seq<Grant>, as_: seq<Attempt>, g: Grant, now: int)
    requires GrantsSound(gs, as_, now) && g.status.Pending? && !g.pruned
    requires forall i | 0 <= i < |as_| :: as_[i].grant < |gs|
    requires g.target.Some? ==> forall i | 0 <= i < |gs| :: !PendingFor(gs[i], g.target.value.screen)
    requires forall i | 0 <= i < |gs| && CodeLive(gs[i], now) :: gs[i].codeHash != g.codeHash
    ensures GrantsSound(gs + [g], as_, now)
  {
    hide ProvedBounded, OutstandingBounded, WonBy;
  }

  lemma {:induction false} AddedGrantKeepsInv(s: State, g: Grant, now: int)
    requires Inv(s, now) && g.status.Pending? && !g.pruned
    requires g.target.Some? ==>
               && g.target.value.screen < |s.screens| && g.org == s.screens[g.target.value.screen].org
               && (forall i | 0 <= i < |s.grants| :: !PendingFor(s.grants[i], g.target.value.screen))
               && IssuerCurrent(s.users, g.org, g.target.value.issuer)
    requires GrantBehind(g, s.screens, s.credentials)
    requires forall i | 0 <= i < |s.grants| && CodeLive(s.grants[i], now) :: s.grants[i].codeHash != g.codeHash
    ensures Inv(s.(grants := s.grants + [g]), now)
  {
    hide DevicesSound, GrantsSound, IssuerCurrent, UniqueRows, GrantBehind;
    AddedGrantKeepsGrants(s.grants, s.attempts, g, now);
    assert forall i | 0 <= i < |s.grants| :: GrantBehind(s.grants[i], s.screens, s.credentials);
  }

  /** A code that is not taken is not the code of any unexpired pending grant. */
  lemma {:induction false} FreeCode(gs: seq<Grant>, as_: seq<Attempt>, code: Id, now: int)
    requires PrunedTogether(gs, as_) && !CodeTaken(gs, code, now)
    ensures forall i | 0 <= i < |gs| && CodeLive(gs[i], now) :: gs[i].codeHash != code
  {
    forall i | 0 <= i < |gs| && CodeLive(gs[i], now) ensures gs[i].codeHash != code {
      assert !CodeInUse(gs[i], code, now);
    }
  }

  // ------------------------------------------------------------------ attempts

  lemma {:induction false} AddedAttemptKeepsInv(s: State, a: Attempt, now: int)
    requires Inv(s, now)
    requires a.grant < |s.grants| && a.org == s.grants[a.grant].org && s.grants[a.grant].status.Pending?
    requires !a.proved && a.bound.None? && !a.pruned
    requires |OutstandingAttempts(s.attempts, a.grant, a.key, now)| < LIMIT
    ensures Inv(s.(attempts := s.attempts + [a]), now)
  {
    hide DevicesSound, OnePending, CodesDistinct, GrantsBehind, OriginsClaimed, IssuersCurrent, ProvedBounded,
         OutstandingBounded;
    AddedAttemptKeepsCounts(s.attempts, a, now);
    AddedAttemptKeepsWinners(s.grants, s.attempts, a);
  }

  lemma {:induction false} AddedAttemptKeepsCounts(as_: seq<Attempt>, a: Attempt, now: int)
    requires ProvedBounded(as_) && OutstandingBounded(as_, now) && !a.proved
    requires |OutstandingAttempts(as_, a.grant, a.key, now)| < LIMIT
    ensures ProvedBounded(as_ + [a]) && OutstandingBounded(as_ + [a], now)
  {
    var bs := as_ + [a];
    forall g ensures |ProvedAttempts(bs, g)| <= LIMIT { SmallerSet(ProvedAttempts(bs, g), ProvedAttempts(as_, g)); }
    forall g, key ensures |OutstandingAttempts(bs, g, key, now)| <= LIMIT {
      if g == a.grant && key == a.key {
        OneMore(OutstandingAttempts(bs, g, key, now), OutstandingAttempts(as_, g, key, now), |as_|);
      } else {
        SmallerSet(OutstandingAttempts(bs, g, key, now), OutstandingAttempts(as_, g, key, now));
      }
    }
  }

  lemma {:induction false} AddedAttemptKeepsWinners(gs: seq<Grant>, as_: seq<Attempt>, a: Attempt)
    requires WonOnce(gs, as_) && a.bound.None? && a.grant < |gs| && gs[a.grant].status.Pending?
    ensures WonOnce(gs, as_ + [a])
  {
    var bs := as_ + [a];
    forall g | 0 <= g < |gs| && gs[g].target.Some? && gs[g].status.Claimed? ensures exists w :: WonBy(bs, g, w) {
      var w :| WonBy(as_, g, w);
      assert WonBy(bs, g, w);
    }
  }

  /** An attempt of a pending grant may prove itself while fewer than four have. */
  lemma {:induction false} ProvedKeepsInv(s: State, k: nat, installation: Id, now: int)
    requires Inv(s, now) && k < |s.attempts|
    requires s.attempts[k].grant < |s.grants| && s.grants[s.attempts[k].grant].status.Pending?
    requires |ProvedAttempts(s.attempts, s.attempts[k].grant)| < LIMIT
    ensures Inv(s.(attempts := s.attempts[k := s.attempts[k].(proved := true, installation := Some(installation))]),
                now)
  {
    hide DevicesSound, OnePending, CodesDistinct, GrantsBehind, OriginsClaimed, IssuersCurrent, ProvedBounded,
         OutstandingBounded;
    var a := s.attempts[k].(proved := true, installation := Some(installation));
    ProvedKeepsCounts(s.attempts, k, a, now);
    ReplacedAttemptKeepsWinners(s.grants, s.attempts, k, a);
  }

  lemma {:induction false} ProvedKeepsCounts(as_: seq<Attempt>, k: nat, a: Attempt, now: int)
    requires ProvedBounded(as_) && OutstandingBounded(as_, now) && k < |as_|
    requires a == as_[k].(proved := true, installation := a.installation)
    requires |ProvedAttempts(as_, a.grant)| < LIMIT
    ensures ProvedBounded(as_[k := a]) && OutstandingBounded(as_[k := a], now)
  {
    var bs := as_[k := a];
    forall g ensures |ProvedAttempts(bs, g)| <= LIMIT {
      if g == a.grant {
        OneMore(ProvedAttempts(bs, g), ProvedAttempts(as_, g), k);
      } else {
        SmallerSet(ProvedAttempts(bs, g), ProvedAttempts(as_, g));
      }
    }
    forall g, key ensures |OutstandingAttempts(bs, g, key, now)| <= LIMIT {
      SmallerSet(OutstandingAttempts(bs, g, key, now), OutstandingAttempts(as_, g, key, now));
    }
  }

  lemma {:induction false} ReplacedAttemptKeepsWinners(gs: seq<Grant>, as_: seq<Attempt>, k: nat, a: Attempt)
    requires WonOnce(gs, as_) && k < |as_| && a.grant == as_[k].grant && a.bound == as_[k].bound
             && a.cancelled == as_[k].cancelled
    ensures WonOnce(gs, as_[k := a])
  {
    var bs := as_[k := a];
    assert forall i | 0 <= i < |as_| ::
        bs[i].grant == as_[i].grant && bs[i].bound == as_[i].bound && bs[i].cancelled == as_[i].cancelled;
    forall g | 0 <= g < |gs| && gs[g].target.Some? && gs[g].status.Claimed? ensures exists w :: WonBy(bs, g, w) {
      var w :| WonBy(as_, g, w);
      assert WonBy(bs, g, w);
    }
  }
}
