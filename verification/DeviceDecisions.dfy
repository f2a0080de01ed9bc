/**
 What every call on grants, attempts, credentials and challenges comes to, case by case, in terms of
 the stored fields alone.
 */
module DeviceDecisions {
  import opened Common
  import opened Devices
  import opened DeviceInvariants
  import opened DeviceSteps
  import opened DeviceEffects
  import opened Authority
  import Identity

  // ------------------------------------------------------------------ activating a re-enrollment

  /** The attempt named is stored, of the organization and of the grant, which re-enrolls the screen. */
  ghost predicate ForReenrollment(s: State, org: Id, screen: Id, grant: Id, attempt: Id) {
    && attempt < |s.attempts| && !s.attempts[attempt].pruned && s.attempts[attempt].org == org
    && s.attempts[attempt].grant == grant
    && grant < |s.grants| && !s.grants[grant].pruned && s.grants[grant].target.Some?
    && s.grants[grant].target.value.screen == screen && s.grants[grant].target.value.purpose == Reenroll
  }

  /** The attempt of the organization is bound to a credential already. */
  ghost predicate BoundBefore(s: State, org: Id, attempt: Id) {
    && attempt < |s.attempts| && !s.attempts[attempt].pruned && s.attempts[attempt].org == org
    && (s.attempts[attempt].consumed || s.attempts[attempt].activated) && s.attempts[attempt].bound.Some?
  }

  /**
   A new attached credential of the attempt's key is on the screen; the grant is claimed, its other
   attempts cancelled.
   */
  ghost predicate BindsTo(s: State, t: State, screen: Id, grant: Id, attempt: Id) {
    && screen < |s.screens| && grant < |s.grants| && attempt < |s.attempts| == |t.attempts|
    && var a, x, c := s.attempts[attempt], s.screens[screen], |s.credentials|;
       && t.screens
          == s.screens[screen := x.(installation := a.installation, token := None, generation := x.generation + 1)]
       && t.credentials == s.credentials + [Credential(x.org, screen, a.key, a.credentialExpiresAt, false, None)]
       && t.usedKeys == s.usedKeys + {a.key}
       && t.grants == s.grants[grant := s.grants[grant].(status := Claimed, screen := Some(screen))]
       && (forall k: nat | k < |s.attempts| ::
             t.attempts[k] == if k == attempt then a.(activated := true, bound := Some(c))
                              else if s.attempts[k].grant == grant then s.attempts[k].(cancelled := true)
                              else s.attempts[k])
       && t.users == s.users && t.challenges == s.challenges
  }

  /** The grant is pending and has time left, its screen is stored at the generation it expects. */
  ghost predicate StillOpen(s: State, org: Id, screen: Id, grant: Id, now: int) {
    && StoredScreen(s.screens, org, screen)
    && grant < |s.grants| && s.grants[grant].status == Pending && now < s.grants[grant].expiresAt
    && s.grants[grant].target.Some? && s.grants[grant].target.value.expectedGeneration == s.screens[screen].generation
  }

  /** What the activation of a re-enrollment comes to. */
  ghost predicate ReenrollmentDecided(
      s: State, t: State, r: Activation, org: Id, screen: Id, grant: Id, attempt: Id, actor: Id, now: int)
  {
    if !Administers(s.users, org, actor) then t == s && r == NotActive(ActivateForbidden)
    else if ForReenrollment(s, org, screen, grant, attempt)
            && !StandsBehind(s.users, org, s.grants[grant].target.value.issuer)
    then t == s && r == NotActive(Stale)
    else if BoundBefore(s, org, attempt) then
      && t == s
      && var c := s.attempts[attempt].bound.value;
         if && ForReenrollment(s, org, screen, grant, attempt) && StoredScreen(s.screens, org, screen)
            && c < |s.credentials| && s.credentials[c].revokedAt == None && !s.credentials[c].detached
            && s.screens[screen].generation == s.grants[grant].target.value.expectedGeneration + 1
         then r == Active(c, true) else r == NotActive(Stale)
    else if !(&& ForReenrollment(s, org, screen, grant, attempt)
              && s.attempts[attempt].proved && !s.attempts[attempt].cancelled)
    then t == s && r == NotActive(CandidateNotFound)
    else if !StillOpen(s, org, screen, grant, now) || KeySpent(s.credentials, s.attempts[attempt].key)
    then t == s && r == NotActive(Stale)
    else BindsTo(s, t, screen, grant, attempt) && t.records == s.records && r == Active(|s.credentials|, false)
  }

  lemma {:induction false} BindingIs(
      s: State, screen: Id, grant: Id, attempt: Id, sel: Selector, cancel: Cancel, now: int)
    requires Inv(s, now) && screen < |s.screens| && grant < |s.grants| && attempt < |s.attempts|
    requires s.attempts[attempt].grant == grant && PendingFor(s.grants[grant], screen)
    requires sel == Targeting(screen) || sel == TargetingIn(s.screens[screen].org, screen)
    ensures var t := RevokedState(Attached(s, screen, grant, attempt), sel, cancel);
            BindsTo(s, t, screen, grant, attempt) && t.records == s.records
  {
    hide DevicesSound, GrantsBehind, OriginsClaimed, IssuersCurrent, CodesDistinct, WonOnce, ProvedBounded,
         OutstandingBounded;
    var u := Attached(s, screen, grant, attempt);
    NoOtherIsSelected(s, screen, grant, attempt, sel);
    assert RevokedState(u, sel, cancel).grants == u.grants;
    assert RevokedState(u, sel, cancel).attempts == u.attempts;
    assert forall k: nat | k < |s.attempts| && s.attempts[k].grant == grant :: !s.attempts[k].pruned;
  }

  lemma {:induction false} NoOtherIsSelected(s: State, screen: Id, grant: Id, attempt: Id, sel: Selector)
    requires OnePending(s.grants) && screen < |s.screens| && grant < |s.grants| && attempt < |s.attempts|
    requires PendingFor(s.grants[grant], screen)
    requires sel == Targeting(screen) || sel == TargetingIn(s.screens[screen].org, screen)
    ensures var u := Attached(s, screen, grant, attempt);
            forall k: nat | k < |u.grants| :: !Selects(sel, k, u.grants[k])
  {
  }

  lemma {:induction false} ScreenIsStored(screens: seq<Screen>, org: Id, screen: Id)
    ensures HasScreen(screens, org, screen) <==> StoredScreen(screens, org, screen)
  {
  }

  /** In a sound store the activation of a re-enrollment is answered exactly as listed. */
  lemma {:induction false} ReenrollmentDecides(
      s: State, org: Id, screen: Id, grant: Id, attempt: Id, actor: Id, now: int)
    requires Inv(s, now)
    ensures var (t, r) := ReenrollmentActivated(s, org, screen, grant, attempt, actor, now);
            ReenrollmentDecided(s, t, r, org, screen, grant, attempt, actor, now)
  {
    hide Inv, IsAdministrator, Administers, IssuerCurrent, StandsBehind, HasKey, KeySpent, Attached, RevokedState,
         BindsTo;
    AdministratorActs(s.users, org, actor);
    if grant < |s.grants| && s.grants[grant].target.Some? {
      IssuerStands(s.users, org, s.grants[grant].target.value.issuer);
    }
    if attempt < |s.attempts| {
      KeyIsSpent(s.credentials, s.attempts[attempt].key);
      SpentMeansUsed(s, s.attempts[attempt].key, now);
    }
    if ReenrollmentActivated(s, org, screen, grant, attempt, actor, now).1 == Active(|s.credentials|, false) {
      BindingIs(s, screen, grant, attempt, Targeting(screen), Nothing, now);
    }
  }

  /** Everything an activation needs: an unbound, proved attempt of a grant that is open and backed, and a new key. */
  ghost predicate CanBind(s: State, org: Id, screen: Id, grant: Id, attempt: Id, now: int) {
    && attempt < |s.attempts| && !s.attempts[attempt].pruned && s.attempts[attempt].org == org
    && s.attempts[attempt].grant == grant
    && s.attempts[attempt].proved && !s.attempts[attempt].cancelled && s.attempts[attempt].bound == None
    && grant < |s.grants| && !s.grants[grant].pruned && s.grants[grant].target.Some?
    && s.grants[grant].target.value.screen == screen && StillOpen(s, org, screen, grant, now)
    && StandsBehind(s.users, org, s.grants[grant].target.value.issuer)
    && !KeySpent(s.credentials, s.attempts[attempt].key)
  }

  /**
   A re-enrollment is activated anew exactly when an administrator activates a proved, uncancelled,
   unbound attempt of a pending re-enrollment grant of the screen that has time left, expects the
   screen's generation and has a current issuer, with a key no credential ever had.
   */
  lemma {:induction false} ReenrollmentActivatesExactly(
      s: State, org: Id, screen: Id, grant: Id, attempt: Id, actor: Id, now: int)
    requires Inv(s, now)
    ensures var (t, r) := ReenrollmentActivated(s, org, screen, grant, attempt, actor, now);
            (r.Active? && !r.replayed) <==>
              && Administers(s.users, org, actor) && CanBind(s, org, screen, grant, attempt, now)
              && s.grants[grant].target.value.purpose == Reenroll
  {
    hide Inv, ReenrollmentActivated, Administers, StandsBehind, KeySpent, BindsTo;
    ReenrollmentDecides(s, org, screen, grant, attempt, actor, now);
    if attempt < |s.attempts| && s.attempts[attempt].grant < |s.grants|
       && s.grants[s.attempts[attempt].grant].status == Pending
    {
      PendingMeansUnbound(s, attempt, now);
    }
  }

  lemma {:induction false} PendingMeansUnbound(s: State, attempt: Id, now: int)
    requires Inv(s, now) && attempt < |s.attempts| && s.attempts[attempt].grant < |s.grants|
    requires s.grants[s.attempts[attempt].grant].status == Pending
    ensures s.attempts[attempt].bound == None
  {
    hide DevicesSound, GrantsBehind, OriginsClaimed, IssuersCurrent, CodesDistinct, ProvedBounded, OutstandingBounded,
         OnePending, PrunedTogether, Shaped;
  }

  // ------------------------------------------------------------------ idempotency records

  /** The first record of the kind under the key. */
  ghost predicate RecordAt(rs: seq<EnrollmentRecord>, k: nat, kind: RecordKind, org: Id, key: Id) {
    && k < |rs| && rs[k].kind == kind && rs[k].org == org && rs[k].keyHash == key
    && forall j: nat | j < k :: !(rs[j].kind == kind && rs[j].org == org && rs[j].keyHash == key)
  }

  ghost predicate Recorded(rs: seq<EnrollmentRecord>, kind: RecordKind, org: Id, key: Id) {
    exists k: nat :: RecordAt(rs, k, kind, org, key)
  }

  lemma {:induction false} RecordIsFound(rs: seq<EnrollmentRecord>, kind: RecordKind, org: Id, key: Id)
    ensures var k := FindRecord(rs, kind, org, key);
            && (k.Some? <==> Recorded(rs, kind, org, key))
            && (k.Some? ==> forall j: nat :: RecordAt(rs, j, kind, org, key) <==> j == k.value)
  {
    var k := FindRecord(rs, kind, org, key);
    if k.Some? { assert RecordAt(rs, k.value, kind, org, key); }
  }

  // ------------------------------------------------------------------ activating an enrollment

  ghost predicate ForEnrollment(s: State, org: Id, screen: Id, grant: Id, attempt: Id) {
    && StoredScreen(s.screens, org, screen)
    && grant < |s.grants| && !s.grants[grant].pruned && s.grants[grant].org == org && s.grants[grant].target.Some?
    && s.grants[grant].target.value.screen == screen && s.grants[grant].target.value.purpose == Enroll
    && attempt < |s.attempts| && !s.attempts[attempt].pruned && s.attempts[attempt].org == org
    && s.attempts[attempt].grant == grant
  }

  /** The screen has never been paired: no device, no token, no credential and no generation. */
  ghost predicate NeverPaired(s: State, screen: Id) {
    && screen < |s.screens| && s.screens[screen].generation == 0
    && s.screens[screen].installation == None && s.screens[screen].token == None
    && EverAttached(s.credentials, screen) == {}
  }

  /** What the activation of an enrollment comes to. */
  ghost predicate EnrollmentDecided(s: State, t: State, r: Activation, org: Id, screen: Id, grant: Id, attempt: Id,
      fingerprint: Id, actor: Id, k: Keyed, now: int)
  {
    if !Administers(s.users, org, actor) then t == s && r == NotActive(ActivateForbidden)
    else if Recorded(s.records, ActivateRecord, org, k.keyHash) then
      exists i: nat ::
        && RecordAt(s.records, i, ActivateRecord, org, k.keyHash)
        && var e := s.records[i];
           if e.actor != actor || e.request != k.request then t == s && r == NotActive(ActivateKeyReused)
           else if e.expiresAt <= now || e.response == None then t == s && r == NotActive(ActivateKeyExpired)
           else if e.response.value >= |s.credentials| || !StoredScreen(s.screens, org, screen)
           then t == s && r == NotActive(Stale)
           else Pruned(s, t, org, now, Some(k.keyHash)) && r == Active(e.response.value, true)
    else if !ForEnrollment(s, org, screen, grant, attempt) then t == s && r == NotActive(CandidateNotFound)
    else if s.attempts[attempt].key != fingerprint then t == s && r == NotActive(FingerprintMismatch)
    else if !(&& CanBind(s, org, screen, grant, attempt, now) && NeverPaired(s, screen)
              && !s.attempts[attempt].activated)
    then t == s && r == NotActive(Stale)
    else
      exists pruned ::
        && Pruned(s, pruned, org, now, Some(k.keyHash)) && BindsTo(pruned, t, screen, grant, attempt)
        && t.records == pruned.records + [EnrollmentRecord(ActivateRecord, org, k.keyHash, actor, k.request,
                                                           now + THIRTY_DAYS, Some(|s.credentials|))]
        && r == Active(|s.credentials|, false)
  }

  lemma {:induction false} StaleExactly(s: State, org: Id, screen: Id, grant: Id, attempt: Id, now: int)
    requires Inv(s, now) && ForEnrollment(s, org, screen, grant, attempt)
    ensures !ActivationStale(s, org, screen, grant, attempt, now) <==>
              && CanBind(s, org, screen, grant, attempt, now) && NeverPaired(s, screen)
              && !s.attempts[attempt].activated
  {
    hide IssuerCurrent, StandsBehind, GrantsSound, OriginsClaimed, IssuersCurrent, LiveBounded;
    IssuerStands(s.users, org, s.grants[grant].target.value.issuer);
    SpentMeansUsed(s, s.attempts[attempt].key, now);
    NeverAnyCredential(s, org, screen, now);
    if s.grants[grant].status == Pending { PendingMeansUnbound(s, attempt, now); }
  }

  lemma {:induction false} NeverAnyCredential(s: State, org: Id, screen: Id, now: int)
    requires Inv(s, now) && StoredScreen(s.screens, org, screen)
    ensures HasAnyCredential(s.credentials, org, screen) <==> EverAttached(s.credentials, screen) != {}
  {
    hide GrantsSound, GrantsBehind, OriginsClaimed, IssuersCurrent, DevicesSound;
    if HasAnyCredential(s.credentials, org, screen) {
      var k :| 0 <= k < |s.credentials| && OfScreen(s.credentials[k], org, screen);
      assert k in EverAttached(s.credentials, screen);
    }
    if EverAttached(s.credentials, screen) != {} {
      var k :| k in EverAttached(s.credentials, screen);
      assert OfScreen(s.credentials[k], org, screen);
    }
  }

  /** What the pruning before it leaves of an attempt to be bound. */
  lemma {:induction false} PrunedCanBind(
      s: State, org: Id, screen: Id, grant: Id, attempt: Id, now: int, keep: Option<Id>)
    requires Inv(s, now) && CanBind(s, org, screen, grant, attempt, now)
    ensures var t := PrunedState(s, org, now, keep);
            && Inv(t, now) && screen < |t.screens| && grant < |t.grants| && attempt < |t.attempts|
            && t.attempts[attempt].grant == grant && PendingFor(t.grants[grant], screen)
            && t.screens == s.screens && t.credentials == s.credentials
  {
    hide Inv, PrunedState, StandsBehind, KeySpent;
    PruningKeepsInv(s, org, now, keep, now);
    PruningKeepsLive(s, org, now, keep, grant, attempt);
  }

  lemma {:induction false} RecordingKeepsBinding(
      s: State, t: State, screen: Id, grant: Id, attempt: Id, records: seq<EnrollmentRecord>)
    requires BindsTo(s, t, screen, grant, attempt)
    ensures BindsTo(s, t.(records := records), screen, grant, attempt)
  {
  }

  /** In a sound store the activation of an enrollment is answered exactly as listed. */
  lemma {:induction false} EnrollmentDecides(
      s: State, org: Id, screen: Id, grant: Id, attempt: Id, fingerprint: Id, actor: Id, k: Keyed, now: int)
    requires Inv(s, now)
    ensures var (t, r) := EnrollmentActivated(s, org, screen, grant, attempt, fingerprint, actor, k, now);
            EnrollmentDecided(s, t, r, org, screen, grant, attempt, fingerprint, actor, k, now)
  {
    hide Inv, IsAdministrator, Administers, ActivationStale, CanBind, NeverPaired, Attached, RevokedState, BindsTo,
         PrunedState, Pruned, FindRecord, Recorded;
    AdministratorActs(s.users, org, actor);
    RecordIsFound(s.records, ActivateRecord, org, k.keyHash);
    PruningIs(s, org, now, Some(k.keyHash));
    if ForEnrollment(s, org, screen, grant, attempt) {
      StaleExactly(s, org, screen, grant, attempt, now);
      if CanBind(s, org, screen, grant, attempt, now) {
        var pruned := PrunedState(s, org, now, Some(k.keyHash));
        PrunedCanBind(s, org, screen, grant, attempt, now, Some(k.keyHash));
        BindingIs(pruned, screen, grant, attempt, TargetingIn(org, screen), Unbound, now);
        var bound := RevokedState(Attached(pruned, screen, grant, attempt), TargetingIn(org, screen), Unbound);
        RecordingKeepsBinding(pruned, bound, screen, grant, attempt,
          bound.records + [EnrollmentRecord(ActivateRecord, org, k.keyHash, actor, k.request, now + THIRTY_DAYS,
                                            Some(|s.credentials|))]);
      }
    }
  }

  /**
   An enrollment is activated anew exactly when an administrator under a new key confirms the key of a
   proved, uncancelled, unbound attempt of a pending enrollment grant that has time left and a current
   issuer, for a screen that has never been paired, with a key no credential ever had.
   */
  lemma {:induction false} EnrollmentActivatesExactly(
      s: State, org: Id, screen: Id, grant: Id, attempt: Id, fingerprint: Id, actor: Id, k: Keyed, now: int)
    requires Inv(s, now)
    ensures var (t, r) := EnrollmentActivated(s, org, screen, grant, attempt, fingerprint, actor, k, now);
            (r.Active? && !r.replayed) <==>
              && Administers(s.users, org, actor) && !Recorded(s.records, ActivateRecord, org, k.keyHash)
              && CanBind(s, org, screen, grant, attempt, now) && s.grants[grant].target.value.purpose == Enroll
              && s.attempts[attempt].key == fingerprint && NeverPaired(s, screen) && !s.attempts[attempt].activated
  {
    hide EnrollmentActivated, Administers, StandsBehind, KeySpent, BindsTo, Pruned, NeverPaired, Recorded, DevicesSound,
         GrantsSound, GrantsBehind, OriginsClaimed, IssuersCurrent;
    EnrollmentDecides(s, org, screen, grant, attempt, fingerprint, actor, k, now);
  }

  // ------------------------------------------------------------------ making grants

  /** The code's expired grants are closed and an open grant of it is added. */
  ghost predicate OpenGrantAdded(s: State, t: State, org: Id, code: Id, expiresAt: int, now: int) {
    && t == s.(grants := t.grants) && |t.grants| == |s.grants| + 1
    && t.grants[|s.grants|] == Grant(org, code, expiresAt, Pending, None, None, false)
    && forall k: nat | k < |s.grants| ::
         t.grants[k] == if !s.grants[k].pruned && s.grants[k].codeHash == code && s.grants[k].status == Pending
                           && s.grants[k].expiresAt <= now
                        then s.grants[k].(status := Expired) else s.grants[k]
  }

  ghost predicate PairingDecided(
      s: State, t: State, r: Made, org: Id, code: Id, expiresAt: int, actor: Id, now: int)
  {
    if !Administers(s.users, org, actor) then t == s && r == NotMade(MakeForbidden)
    else if CodeIsLive(s.grants, code, now) then t == s && r == NotMade(CodeCollision)
    else OpenGrantAdded(s, t, org, code, expiresAt, now) && r == Made(|s.grants|, false)
  }

  lemma {:induction false} PairingDecides(s: State, org: Id, code: Id, expiresAt: int, actor: Id, now: int)
    ensures var (t, r) := PairingCreated(s, org, code, expiresAt, actor, now);
            PairingDecided(s, t, r, org, code, expiresAt, actor, now)
  {
    hide IsAdministrator, Administers, CodeTaken, CodeIsLive;
    AdministratorActs(s.users, org, actor);
    CodeIsTaken(s.grants, code, now);
  }

  /** A grant for the screen, on behalf of the administrator. */
  ghost predicate GrantFor(g: Grant, users: seq<Identity.User>, org: Id, code: Id, expiresAt: int, purpose: Purpose,
      screen: Id, generation: nat, actor: Id)
  {
    && g.target.Some? && IssuedFor(users, org, actor, g.target.value.issuer)
    && g == Grant(org, code, expiresAt, Pending, Some(Target(purpose, screen, generation, g.target.value.issuer)), None,
                  false)
  }

  /** What a re-enrollment request changes after pruning. */
  ghost predicate Reenrolling(
      p: State, t: State, org: Id, screen: Id, code: Id, expiresAt: int, actor: Id, now: int)
  {
    var revoked, gone := PendingGrants(p.grants, screen), AttachedOn(p.credentials, screen);
    && |t.grants| == |p.grants| + 1 && GrantsRevoked(p.grants, t.grants[..|p.grants|], revoked)
    && screen < |p.screens|
    && GrantFor(t.grants[|p.grants|], p.users, org, code, expiresAt, Reenroll, screen, p.screens[screen].generation + 1,
                actor)
    && AttemptsCancelled(p.attempts, t.attempts, UnboundAttempts(p.attempts, revoked))
    && CredentialsDetached(p.credentials, t.credentials, gone, now)
    && ChallengesSpent(p.challenges, t.challenges, gone, now)
    && MovedOn(p.screens, t.screens, screen)
    && t.users == p.users && t.usedKeys == p.usedKeys && t.records == p.records
  }

  ghost predicate ReenrollmentRequestDecided(
      s: State, t: State, r: Made, org: Id, screen: Id, code: Id, expiresAt: int, actor: Id, now: int)
  {
    if !Administers(s.users, org, actor) then t == s && r == NotMade(MakeForbidden)
    else if !StoredScreen(s.screens, org, screen) then t == s && r == NotMade(TargetNotFound)
    else if CodeIsLive(s.grants, code, now) then t == s && r == NotMade(CodeCollision)
    else
      && r == Made(|s.grants|, false)
      && exists pruned ::
           Pruned(s, pruned, org, now, None) && Reenrolling(pruned, t, org, screen, code, expiresAt, actor, now)
  }

  lemma {:induction false} ReenrollingIs(
      p: State, org: Id, screen: Id, code: Id, expiresAt: int, actor: Id, now: int)
    requires Inv(p, now) && StoredScreen(p.screens, org, screen) && IsAdministrator(p.users, org, actor)
    ensures var revoked := RevokedState(p, Targeting(screen), Unbound);
            var moved := DetachedState(revoked, AttachedTo(org, screen), now);
            screen < |moved.screens|
            && var u := Advanced(moved, screen);
               var g := TargetedGrant(org, code, expiresAt, Reenroll, screen, u.screens[screen].generation,
                                      IssuerOf(p.users, org, actor));
               Reenrolling(p, u.(grants := u.grants + [g]), org, screen, code, expiresAt, actor, now)
  {
    hide Inv, RevokedState, DetachedState, IssuerOf, IsAdministrator, PendingGrants, AttachedOn, Selected, PickedOnes,
         GrantsRevoked, AttemptsCancelled, UnboundAttempts, CredentialsDetached, ChallengesSpent, IssuedFor;
    var revoked := RevokedState(p, Targeting(screen), Unbound);
    RevokingIs(p, Targeting(screen), Unbound);
    SelectedAre(p, org, screen, 0, {});
    DetachingIs(revoked, AttachedTo(org, screen), now);
    PickedAre(p, org, screen, 0, now);
    IssuerIsRow(p.users, org, actor);
    var moved := DetachedState(revoked, AttachedTo(org, screen), now);
    SameLength(p.grants, revoked.grants, PendingGrants(p.grants, screen));
    var u := Advanced(moved, screen);
    var g := TargetedGrant(org, code, expiresAt, Reenroll, screen, u.screens[screen].generation,
                           IssuerOf(p.users, org, actor));
    assert (u.grants + [g])[..|p.grants|] == revoked.grants;
  }

  lemma {:induction false} SameLength(gs: seq<Grant>, hs: seq<Grant>, revoked: set<nat>)
    requires GrantsRevoked(gs, hs, revoked)
    ensures |hs| == |gs|
  {
  }

  /** In a sound store a re-enrollment request is answered exactly as listed. */
  lemma {:induction false} ReenrollmentRequestDecides(
      s: State, org: Id, screen: Id, code: Id, expiresAt: int, actor: Id, now: int)
    requires Inv(s, now)
    ensures var (t, r) := ReenrollmentRequested(s, org, screen, code, expiresAt, actor, now);
            ReenrollmentRequestDecided(s, t, r, org, screen, code, expiresAt, actor, now)
  {
    hide Inv, IsAdministrator, Administers, CodeTaken, CodeIsLive, PrunedState, RevokedState, DetachedState, IssuerOf,
         Pruned, Reenrolling;
    AdministratorActs(s.users, org, actor);
    CodeIsTaken(s.grants, code, now);
    if IsAdministrator(s.users, org, actor) && StoredScreen(s.screens, org, screen) {
      var pruned := PrunedState(s, org, now, None);
      PruningIs(s, org, now, None);
      PrunedFrame(s, org, now, None);
      PruningKeepsInv(s, org, now, None, now);
      ReenrollingIs(pruned, org, screen, code, expiresAt, actor, now);
      RevokedFrame(pruned, Targeting(screen), Unbound);
      DetachedFrame(RevokedState(pruned, Targeting(screen), Unbound), AttachedTo(org, screen), now);
    }
  }

  lemma {:induction false} PrunedFrame(s: State, org: Id, now: int, keep: Option<Id>)
    ensures var t := PrunedState(s, org, now, keep);
            && t == s.(grants := t.grants, attempts := t.attempts, records := t.records)
            && |t.grants| == |s.grants| && |t.attempts| == |s.attempts|
  {
  }

  lemma {:induction false} RevokedFrame(s: State, sel: Selector, cancel: Cancel)
    ensures var t := RevokedState(s, sel, cancel);
            t == s.(grants := t.grants, attempts := t.attempts) && |t.grants| == |s.grants|
  {
  }

  lemma {:induction false} DetachedFrame(s: State, p: Picked, now: int)
    ensures var t := DetachedState(s, p, now); t == s.(credentials := t.credentials, challenges := t.challenges)
  {
  }

  /** The first of the codes that no live grant has. */
  ghost predicate FirstFree(grants: seq<Grant>, codes: seq<Id>, i: nat, now: int) {
    && i < |codes| && !CodeIsLive(grants, codes[i], now)
    && forall j: nat | j < i :: CodeIsLive(grants, codes[j], now)
  }

  lemma {:induction false} FreeCodeIsFirst(grants: seq<Grant>, codes: seq<Id>, now: int)
    ensures var code := FirstFreeCode(grants, codes, now);
            && (code.Some? ==> exists i: nat :: FirstFree(grants, codes, i, now) && codes[i] == code.value)
            && (code.None? ==> forall i: nat | i < |codes| :: CodeIsLive(grants, codes[i], now))
  {
    hide CodeTaken, CodeIsLive;
    if codes != [] {
      CodeIsTaken(grants, codes[0], now);
      if CodeTaken(grants, codes[0], now) {
        var rest := codes[1..];
        FreeCodeIsFirst(grants, rest, now);
        assert forall j: nat | 0 < j < |codes| :: codes[j] == rest[j - 1];
        if FirstFreeCode(grants, rest, now).Some? {
          var i: nat :| FirstFree(grants, rest, i, now) && rest[i] == FirstFreeCode(grants, rest, now).value;
          assert FirstFree(grants, codes, i + 1, now);
        }
      } else {
        assert FirstFree(grants, codes, 0, now);
      }
    }
  }

  /** What an enrollment request changes after pruning. */
  ghost predicate Enrolling(p: State, t: State, org: Id, screen: Id, code: Id, actor: Id, k: Keyed, now: int) {
    var revoked := PendingEnrollments(p.grants, org, screen);
    && |t.grants| == |p.grants| + 1 && GrantsRevoked(p.grants, t.grants[..|p.grants|], revoked)
    && GrantFor(t.grants[|p.grants|], p.users, org, code, now + 600_000, Enroll, screen, 0, actor)
    && AttemptsCancelled(p.attempts, t.attempts, UnboundAttempts(p.attempts, revoked))
    && t == p.(grants := t.grants, attempts := t.attempts, records := t.records)
    && t.records == p.records + [EnrollmentRecord(CreateRecord, org, k.keyHash, actor, k.request, now + THIRTY_DAYS,
                                                  Some(|p.grants|))]
  }

  ghost predicate EnrollmentRequestDecided(
      s: State, t: State, r: Made, org: Id, screen: Id, codes: seq<Id>, actor: Id, k: Keyed, now: int)
  {
    if !Administers(s.users, org, actor) then t == s && r == NotMade(MakeForbidden)
    else if Recorded(s.records, CreateRecord, org, k.keyHash) then
      exists i: nat ::
        && RecordAt(s.records, i, CreateRecord, org, k.keyHash)
        && var e := s.records[i];
           if e.actor != actor || e.request != k.request then t == s && r == NotMade(MakeKeyReused)
           else if e.expiresAt <= now || e.response == None then t == s && r == NotMade(MakeKeyExpired)
           else if e.response.value >= |s.grants| || s.grants[e.response.value].pruned
           then t == s && r == NotMade(MakeKeyExpired)
           else Pruned(s, t, org, now, Some(k.keyHash)) && r == Made(e.response.value, true)
    else if !StoredScreen(s.screens, org, screen) then t == s && r == NotMade(TargetNotFound)
    else if !NeverPaired(s, screen) then t == s && r == NotMade(NotEligible)
    else if forall i: nat | i < |codes| :: CodeIsLive(s.grants, codes[i], now) then
      t == s && r == NotMade(CodeCollision)
    else
      && r == Made(|s.grants|, false)
      && exists i: nat, pruned ::
           && FirstFree(s.grants, codes, i, now) && Pruned(s, pruned, org, now, Some(k.keyHash))
           && Enrolling(pruned, t, org, screen, codes[i], actor, k, now)
  }

  lemma {:induction false} EnrollingIs(p: State, org: Id, screen: Id, code: Id, actor: Id, k: Keyed, now: int)
    requires IsAdministrator(p.users, org, actor)
    ensures var u := RevokedState(p, EnrollingIn(org, screen), Unbound);
            var g := TargetedGrant(org, code, now + GRANT_LIFETIME, Enroll, screen, 0, IssuerOf(p.users, org, actor));
            var e := EnrollmentRecord(CreateRecord, org, k.keyHash, actor, k.request, now + AUTHORITY_RETENTION,
                                      Some(|u.grants|));
            Enrolling(p, u.(grants := u.grants + [g], records := u.records + [e]), org, screen, code, actor, k, now)
  {
    hide RevokedState, IssuerOf, IsAdministrator, PendingEnrollments, Selected, GrantsRevoked, AttemptsCancelled,
         UnboundAttempts, IssuedFor;
    var u := RevokedState(p, EnrollingIn(org, screen), Unbound);
    RevokingIs(p, EnrollingIn(org, screen), Unbound);
    SelectedAre(p, org, screen, 0, {});
    IssuerIsRow(p.users, org, actor);
    SameLength(p.grants, u.grants, PendingEnrollments(p.grants, org, screen));
    var g := TargetedGrant(org, code, now + GRANT_LIFETIME, Enroll, screen, 0, IssuerOf(p.users, org, actor));
    assert (u.grants + [g])[..|p.grants|] == u.grants;
  }

  /** In a sound store an enrollment request is answered exactly as listed. */
  lemma {:induction false} EnrollmentRequestDecides(
      s: State, org: Id, screen: Id, codes: seq<Id>, actor: Id, k: Keyed, now: int)
    requires Inv(s, now)
    ensures var (t, r) := EnrollmentRequested(s, org, screen, codes, actor, k, now);
            EnrollmentRequestDecided(s, t, r, org, screen, codes, actor, k, now)
  {
    hide Inv, IsAdministrator, Administers, CodeTaken, CodeIsLive, PrunedState, RevokedState, IssuerOf, Pruned,
         Enrolling, FindRecord, Recorded, FirstFreeCode, HasAnyCredential, EverAttached;
    AdministratorActs(s.users, org, actor);
    RecordIsFound(s.records, CreateRecord, org, k.keyHash);
    FreeCodeIsFirst(s.grants, codes, now);
    PruningIs(s, org, now, Some(k.keyHash));
    if StoredScreen(s.screens, org, screen) { NeverAnyCredential(s, org, screen, now); }
    if IsAdministrator(s.users, org, actor) {
      var pruned := PrunedState(s, org, now, Some(k.keyHash));
      PrunedFrame(s, org, now, Some(k.keyHash));
      RevokedFrame(pruned, EnrollingIn(org, screen), Unbound);
      var code := FirstFreeCode(s.grants, codes, now);
      if code.Some? { EnrollingIs(pruned, org, screen, code.value, actor, k, now); }
    }
  }

  // ------------------------------------------------------------------ cancelling

  ghost predicate CancelDecided(
      s: State, t: State, cancelled: bool, org: Id, screen: Id, grant: Id, purpose: Purpose, actor: Id)
  {
    && (cancelled <==>
          && Administers(s.users, org, actor) && grant < |s.grants| && !s.grants[grant].pruned
          && s.grants[grant].org == org && s.grants[grant].status == Pending && s.grants[grant].target.Some?
          && s.grants[grant].target.value.screen == screen && s.grants[grant].target.value.purpose == purpose)
    && if cancelled then
         && GrantsRevoked(s.grants, t.grants, {grant})
         && AttemptsCancelled(s.attempts, t.attempts, UnconsumedAttempts(s.attempts, {grant}))
         && t == s.(grants := t.grants, attempts := t.attempts)
       else t == s
  }

  /** A grant is cancelled exactly when an administrator names a pending one, of that kind, of that screen. */
  lemma {:induction false} CancelDecides(s: State, org: Id, screen: Id, grant: Id, purpose: Purpose, actor: Id)
    ensures var (t, cancelled) := GrantCancelled(s, org, screen, grant, purpose, actor);
            CancelDecided(s, t, cancelled, org, screen, grant, purpose, actor)
  {
    hide IsAdministrator, Administers, RevokedState, GrantsRevoked, AttemptsCancelled, UnconsumedAttempts;
    AdministratorActs(s.users, org, actor);
    RevokingIs(s, Only(grant), Unconsumed);
    if grant < |s.grants| && s.grants[grant].status == Pending && !s.grants[grant].pruned {
      assert Selected(s.grants, Only(grant)) == {grant};
    }
  }

  // ------------------------------------------------------------------ revoking

  /** The grants pending for the screen are closed, with the attempts not consumed, and it has to enroll anew. */
  ghost predicate ClosesAndMovesOn(s: State, t: State, screen: Id, gone: set<nat>, now: int) {
    var revoked := PendingGrants(s.grants, screen);
    && GrantsRevoked(s.grants, t.grants, revoked)
    && AttemptsCancelled(s.attempts, t.attempts, UnconsumedAttempts(s.attempts, revoked))
    && CredentialsDetached(s.credentials, t.credentials, gone, now)
    && ChallengesSpent(s.challenges, t.challenges, gone, now)
    && MovedOn(s.screens, t.screens, screen)
    && t.users == s.users && t.usedKeys == s.usedKeys && t.records == s.records
  }

  /** The first credential the screen ever had. */
  ghost predicate FirstOn(credentials: seq<Credential>, screen: Id, c: nat) {
    c in EverAttached(credentials, screen) && forall k | k in EverAttached(credentials, screen) :: c <= k
  }

  /** What a revocation comes to. */
  ghost predicate RevocationDecided(s: State, t: State, r: Revocation, org: Id, screen: Id, actor: Id, now: int) {
    var attached, ever := AttachedOn(s.credentials, screen), EverAttached(s.credentials, screen);
    if !Administers(s.users, org, actor) then t == s && r == NotRevoked(RevokeForbidden)
    else if !StoredScreen(s.screens, org, screen) then t == s && r == NotRevoked(NoCredential)
    else if attached != {} then
      && ClosesAndMovesOn(s, t, screen, attached, now)
      && exists c: nat :: attached == {c} && r == RevokedCredential(Some(c))
    else if PendingGrants(s.grants, screen) == {} then
      t == s && r == NotRevoked(if ever == {} then NoCredential else AlreadyRevoked)
    else
      && ClosesAndMovesOn(s, t, screen, {}, now)
      && if ever == {} then r == RevokedCredential(None)
         else exists c: nat :: FirstOn(s.credentials, screen, c) && r == RevokedCredential(Some(c))
  }

  /** In a sound store the credential to revoke is the attached one, or else the first the screen ever had. */
  lemma {:induction false} CredentialToRevokeIs(s: State, org: Id, screen: Id, now: int)
    requires Inv(s, now) && StoredScreen(s.screens, org, screen)
    ensures var c := CredentialToRevoke(s.credentials, org, screen);
            var attached, ever := AttachedOn(s.credentials, screen), EverAttached(s.credentials, screen);
            && (attached != {} ==> c.Some? && attached == {c.value} && c.value < |s.credentials|
                                   && s.credentials[c.value].revokedAt == None)
            && (attached == {} && ever != {} ==>
                  c.Some? && FirstOn(s.credentials, screen, c.value) && s.credentials[c.value].revokedAt.Some?)
            && (ever == {} ==> attached == {} && c == None)
  {
    hide GrantsSound, GrantsBehind, OriginsClaimed, IssuersCurrent, KeysBurnt, LiveBounded;
    assert forall i: nat | i < |s.credentials| && s.credentials[i].screen == screen ::
             OfScreen(s.credentials[i], org, screen);
    var attached, ever := AttachedOn(s.credentials, screen), EverAttached(s.credentials, screen);
    assert attached <= ever;
    var found, revoked := FindAttached(s.credentials, org, screen), FindRevoked(s.credentials, org, screen);
    if found.Some? {
      assert found.value in attached;
      OnlyOneAttached(s.credentials, screen, found.value);
    } else {
      assert forall k: nat | k in attached :: OfScreen(s.credentials[k], org, screen);
      assert attached == {};
      if revoked.Some? { assert revoked.value in ever; }
    }
  }

  lemma {:induction false} OnlyOneAttached(credentials: seq<Credential>, screen: Id, c: nat)
    requires OneAttached(credentials) && c in AttachedOn(credentials, screen)
    ensures AttachedOn(credentials, screen) == {c}
  {
    forall k | k in AttachedOn(credentials, screen) ensures k == c { }
  }

  lemma {:induction false} PendingIsSelected(s: State, org: Id, screen: Id, now: int)
    requires Inv(s, now) && StoredScreen(s.screens, org, screen)
    ensures HasPending(s.grants, org, screen) <==> PendingGrants(s.grants, screen) != {}
  {
    hide Inv, Selects;
    SelectedInOrganization(s, org, screen, now);
    if HasPending(s.grants, org, screen) {
      var k :| 0 <= k < |s.grants| && Selects(TargetingIn(org, screen), k, s.grants[k]);
      assert k in Selected(s.grants, TargetingIn(org, screen));
    }
    if Selected(s.grants, TargetingIn(org, screen)) != {} {
      var k :| k in Selected(s.grants, TargetingIn(org, screen));
      assert Selects(TargetingIn(org, screen), k, s.grants[k]);
    }
  }

  lemma {:induction false} NothingDetached(s: State, now: int)
    ensures CredentialsDetached(s.credentials, s.credentials, {}, now)
    ensures ChallengesSpent(s.challenges, s.challenges, {}, now)
  {
  }

  lemma {:induction false} ReassertingIs(s: State, org: Id, screen: Id, now: int)
    requires Inv(s, now) && StoredScreen(s.screens, org, screen)
    ensures var u := RevokedState(s, TargetingIn(org, screen), Unconsumed);
            screen < |u.screens| && ClosesAndMovesOn(s, Advanced(u, screen), screen, {}, now)
  {
    hide Inv, RevokedState, PendingGrants, Selected, GrantsRevoked, AttemptsCancelled, UnconsumedAttempts,
         CredentialsDetached, ChallengesSpent;
    RevokingIs(s, TargetingIn(org, screen), Unconsumed);
    SelectedInOrganization(s, org, screen, now);
    NothingDetached(s, now);
  }

  lemma {:induction false} RevokingCredentialIs(s: State, org: Id, screen: Id, c: nat, now: int)
    requires Inv(s, now) && StoredScreen(s.screens, org, screen) && c < |s.credentials|
    ensures var detached := DetachedState(s, Single(c), now);
            screen < |detached.screens|
            && ClosesAndMovesOn(s, RevokedState(Advanced(detached, screen), Targeting(screen), Unconsumed), screen, {c},
                                now)
  {
    hide Inv, RevokedState, DetachedState, PendingGrants, Selected, PickedOnes, GrantsRevoked, AttemptsCancelled,
         UnconsumedAttempts, CredentialsDetached, ChallengesSpent;
    DetachingIs(s, Single(c), now);
    PickedAre(s, org, screen, c, now);
    var moved := Advanced(DetachedState(s, Single(c), now), screen);
    RevokingIs(moved, Targeting(screen), Unconsumed);
    SelectedAre(moved, org, screen, 0, {});
  }

  /** In a sound store a revocation is answered exactly as listed. */
  lemma {:induction false} RevocationDecides(s: State, org: Id, screen: Id, actor: Id, now: int)
    requires Inv(s, now)
    ensures var (t, r) := CredentialRevoked(s, org, screen, actor, now);
            RevocationDecided(s, t, r, org, screen, actor, now)
  {
    hide Inv, IsAdministrator, Administers, HasPending, CredentialToRevoke, RevokedState, DetachedState, Advanced,
         ClosesAndMovesOn, PendingGrants, AttachedOn, EverAttached;
    AdministratorActs(s.users, org, actor);
    if StoredScreen(s.screens, org, screen) {
      CredentialToRevokeIs(s, org, screen, now);
      PendingIsSelected(s, org, screen, now);
      ReassertingIs(s, org, screen, now);
      var c := CredentialToRevoke(s.credentials, org, screen);
      if c.Some? && c.value < |s.credentials| { RevokingCredentialIs(s, org, screen, c.value, now); }
    }
  }

  // ------------------------------------------------------------------ removing screens

  ghost predicate DeletionDecided(s: State, t: State, deleted: bool, org: Id, screen: Id, actor: Id, now: int) {
    && (deleted <==> Administers(s.users, org, actor) && StoredScreen(s.screens, org, screen))
    && if deleted then
         && GrantsRevoked(s.grants, t.grants, PendingGrants(s.grants, screen)) && t.attempts == s.attempts
         && CredentialsDetached(s.credentials, t.credentials, EverAttached(s.credentials, screen), now)
         && ChallengesSpent(s.challenges, t.challenges, EverAttached(s.credentials, screen), now)
         && screen < |s.screens| && t.screens == s.screens[screen := s.screens[screen].(deleted := true)]
         && t.users == s.users && t.usedKeys == s.usedKeys && t.records == s.records
       else t == s
  }

  /** A screen is removed exactly when an administrator names a stored one; everything on it ends. */
  lemma {:induction false} DeletionDecides(s: State, org: Id, screen: Id, actor: Id, now: int)
    requires Inv(s, now)
    ensures var (t, deleted) := ScreenDeleted(s, org, screen, actor, now);
            DeletionDecided(s, t, deleted, org, screen, actor, now)
  {
    hide Inv, IsAdministrator, Administers, RevokedState, DetachedState, PendingGrants, Selected, PickedOnes,
         GrantsRevoked, CredentialsDetached, ChallengesSpent, EverAttached;
    AdministratorActs(s.users, org, actor);
    if StoredScreen(s.screens, org, screen) {
      var detached := DetachedState(s, EverOn(org, screen), now);
      DetachingIs(s, EverOn(org, screen), now);
      PickedAre(s, org, screen, 0, now);
      RevokingIs(detached, Targeting(screen), Nothing);
      SelectedAre(detached, org, screen, 0, {});
    }
  }

  // ------------------------------------------------------------------ identity mutations

  /** A mutation that takes effect first closes the pending grants its user issued in the organizations it is about. */
  ghost predicate MutationDecided(s: State, t: State, m: Identity.Mutation, sessions: seq<Identity.Session>, now: int) {
    var before := Identity.State(s.users, sessions, 0);
    var outcome := Identity.Judge(before, m, now);
    if outcome.Applied? then
      var revoked := PendingIssued(s.grants, m.user, outcome.orgs);
      && GrantsRevoked(s.grants, t.grants, revoked)
      && AttemptsCancelled(s.attempts, t.attempts, UnboundAttempts(s.attempts, revoked))
      && t == s.(grants := t.grants, attempts := t.attempts, users := Identity.Mutated(before, m, now).users)
    else t == s
  }

  lemma {:induction false} MutationDecides(
      s: State, m: Identity.Mutation, sessions: seq<Identity.Session>, now: int)
    ensures MutationDecided(s, UserMutated(s, m, sessions, now), m, sessions, now)
  {
    hide Identity.Judge, Identity.Mutated, RevokedState, Selected, PendingIssued, GrantsRevoked, AttemptsCancelled,
         UnboundAttempts;
    var outcome := Identity.Judge(Identity.State(s.users, sessions, 0), m, now);
    if outcome.Applied? {
      RevokingIs(s, IssuedBy(m.user, outcome.orgs), Unbound);
      SelectedAre(s, 0, 0, m.user, outcome.orgs);
    }
  }
}
