/** Every operation on devices keeps the invariant. */
module DeviceSteps {
  import opened Common
  import opened Devices
  import opened DeviceInvariants
  import Identity
  import opened IdentityEpochs

  // ------------------------------------------------------------------ new credentials

  lemma {:induction false} AddedCredentialKeepsDevices(
      credentials: seq<Credential>, used: set<Id>, challenges: seq<Challenge>, c: Credential, now: int)
    requires DevicesSound(credentials, used, challenges, now)
    requires !HasKey(credentials, c.key) && NoneAttached(credentials, c.screen) && !c.detached && c.revokedAt.None?
    ensures DevicesSound(credentials + [c], used + {c.key}, challenges, now)
  {
    hide LiveBounded;
    var more := credentials + [c];
    forall k ensures k in used + {c.key} <==> HasKey(more, k) {
      if k in used { var i :| 0 <= i < |credentials| && credentials[i].key == k; assert more[i].key == k; }
      if k == c.key { assert more[|credentials|].key == k; }
    }
  }

  /** Claiming a pending grant for its screen, with one of its attempts. */
  lemma {:induction false} ClaimingKeepsGrants(
      gs: seq<Grant>, as_: seq<Attempt>, bs: seq<Attempt>, grant: Id, screen: Id, w: nat, now: int)
    requires GrantsSound(gs, as_, now) && grant < |gs| && gs[grant].status.Pending? && |bs| == |as_|
    requires w < |as_| && as_[w].grant == grant
    requires bs[w] == as_[w].(bound := bs[w].bound, activated := bs[w].activated, consumed := bs[w].consumed)
             && bs[w].bound.Some?
    requires as_[w].consumed ==> bs[w].consumed
    requires forall i | 0 <= i < |as_| && i != w ::
               bs[i] == if gs[grant].target.Some? && as_[i].grant == grant && !as_[i].pruned
                        then as_[i].(cancelled := true) else as_[i]
    ensures GrantsSound(gs[grant := gs[grant].(status := Claimed, screen := Some(screen))], bs, now)
  {
    hide ProvedBounded, OutstandingBounded, WonOnce;
    ClaimingKeepsWinners(gs, as_, bs, grant, screen, w);
    ClaimingKeepsCounts(as_, bs, w, now);
  }

  lemma {:induction false} ClaimingKeepsWinners(
      gs: seq<Grant>, as_: seq<Attempt>, bs: seq<Attempt>, grant: Id, screen: Id, w: nat)
    requires WonOnce(gs, as_) && PrunedTogether(gs, as_) && grant < |gs| && gs[grant].status.Pending? && |bs| == |as_|
    requires w < |as_| && as_[w].grant == grant
    requires bs[w] == as_[w].(bound := bs[w].bound, activated := bs[w].activated, consumed := bs[w].consumed)
             && bs[w].bound.Some?
    requires forall i | 0 <= i < |as_| && i != w ::
               bs[i] == if gs[grant].target.Some? && as_[i].grant == grant && !as_[i].pruned
                        then as_[i].(cancelled := true) else as_[i]
    ensures WonOnce(gs[grant := gs[grant].(status := Claimed, screen := Some(screen))], bs)
  {
    var hs := gs[grant := gs[grant].(status := Claimed, screen := Some(screen))];
    forall g | 0 <= g < |hs| && hs[g].target.Some? && hs[g].status.Claimed? ensures exists v :: WonBy(bs, g, v) {
      if g == grant {
        assert WonBy(bs, g, w);
      } else {
        var v :| WonBy(as_, g, v);
        assert WonBy(bs, g, v);
      }
    }
  }

  lemma {:induction false} ClaimingKeepsCounts(as_: seq<Attempt>, bs: seq<Attempt>, w: nat, now: int)
    requires ProvedBounded(as_) && OutstandingBounded(as_, now) && |bs| == |as_| && w < |as_|
    requires bs[w] == as_[w].(bound := bs[w].bound, activated := bs[w].activated, consumed := bs[w].consumed)
    requires as_[w].consumed ==> bs[w].consumed
    requires forall i | 0 <= i < |as_| && i != w ::
               bs[i] == as_[i].(cancelled := bs[i].cancelled) && (as_[i].cancelled ==> bs[i].cancelled)
    ensures ProvedBounded(bs) && OutstandingBounded(bs, now)
  {
    forall g ensures |ProvedAttempts(bs, g)| <= LIMIT { SmallerSet(ProvedAttempts(bs, g), ProvedAttempts(as_, g)); }
    forall g, key ensures |OutstandingAttempts(bs, g, key, now)| <= LIMIT {
      SmallerSet(OutstandingAttempts(bs, g, key, now), OutstandingAttempts(as_, g, key, now));
    }
  }

  /** No grant expects the generation a screen is about to reach. */
  lemma {:induction false} AttachingKeepsBehind(s: State, screen: Id, x: Screen, c: Credential, grant: Id, g: Grant)
    requires GrantsBehind(s.grants, s.screens, s.credentials) && screen < |s.screens| && grant < |s.grants|
    requires x.generation > s.screens[screen].generation && c.screen == screen
    requires !g.status.Pending? && g.target == s.grants[grant].target
    ensures GrantsBehind(s.grants[grant := g], s.screens[screen := x], s.credentials + [c])
  {
    var grants, screens, credentials := s.grants[grant := g], s.screens[screen := x], s.credentials + [c];
    forall i | 0 <= i < |grants| ensures GrantBehind(grants[i], screens, credentials) {
      assert GrantBehind(s.grants[i], s.screens, s.credentials);
    }
  }

  lemma {:induction false} AttachedKeepsInv(s: State, screen: Id, grant: Id, attempt: Id, now: int)
    requires Inv(s, now) && screen < |s.screens| && grant < |s.grants| && attempt < |s.attempts|
    requires s.attempts[attempt].grant == grant && s.grants[grant].status.Pending?
    requires s.grants[grant].target.Some? && s.grants[grant].target.value.screen == screen
    requires !HasKey(s.credentials, s.attempts[attempt].key) && NoneAttached(s.credentials, screen)
    ensures Inv(Attached(s, screen, grant, attempt), now)
  {
    hide DevicesSound, GrantsSound, GrantsBehind, IssuerCurrent, UniqueRows, NoneAttached;
    var t := Attached(s, screen, grant, attempt);
    var a, x := s.attempts[attempt], s.screens[screen];
    AddedCredentialKeepsDevices(s.credentials, s.usedKeys, s.challenges, t.credentials[|s.credentials|], now);
    ClaimingKeepsGrants(s.grants, s.attempts, t.attempts, grant, screen, attempt, now);
    AttachingKeepsBehind(s, screen, t.screens[screen], t.credentials[|s.credentials|], grant, t.grants[grant]);
  }

  lemma {:induction false} NewScreenKeepsBehind(grants: seq<Grant>, screens: seq<Screen>, credentials: seq<Credential>,
      x: Screen, c: Option<Credential>, grant: Id, g: Grant)
    requires GrantsBehind(grants, screens, credentials) && grant < |grants| && g.target.None?
    requires forall i | 0 <= i < |grants| && grants[i].target.Some? :: grants[i].target.value.screen < |screens|
    requires c.Some? ==> c.value.screen == |screens|
    ensures GrantsBehind(grants[grant := g], screens + [x], if c.Some? then credentials + [c.value] else credentials)
  {
    var after := grants[grant := g];
    forall i | 0 <= i < |after|
      ensures GrantBehind(after[i], screens + [x], if c.Some? then credentials + [c.value] else credentials)
    {
      assert GrantBehind(grants[i], screens, credentials);
    }
  }

  lemma {:induction false} AttachedToNewKeepsInv(s: State, c: Claim, now: int)
    requires Inv(s, now) && c.attempt < |s.attempts| && c.grant < |s.grants|
    requires s.attempts[c.attempt].grant == c.grant && s.grants[c.grant].status.Pending?
             && s.grants[c.grant].target.None?
    requires !HasKey(s.credentials, s.attempts[c.attempt].key)
    ensures Inv(AttachedToNew(s, c), now)
  {
    hide DevicesSound, GrantsSound, GrantsBehind, IssuerCurrent, UniqueRows;
    var t := AttachedToNew(s, c);
    var credential := t.credentials[|s.credentials|];
    AddedCredentialKeepsDevices(s.credentials, s.usedKeys, s.challenges, credential, now);
    ClaimingKeepsGrants(s.grants, s.attempts, t.attempts, c.grant, |s.screens|, c.attempt, now);
    NewScreenKeepsBehind(s.grants, s.screens, s.credentials, t.screens[|s.screens|], Some(credential), c.grant,
                         t.grants[c.grant]);
  }

  lemma {:induction false} PairingClaimedKeepsInv(s: State, code: Id, installation: Id, token: Id, now: int)
    requires Inv(s, now)
    ensures Inv(PairingClaimed(s, code, installation, token, now).0, now)
  {
    hide DevicesSound, GrantsBehind, IssuerCurrent, UniqueRows, ProvedBounded, OutstandingBounded, WonBy;
    var t := PairingClaimed(s, code, installation, token, now).0;
    var k := FindOpenCode(s.grants, code, now);
    if k.Some? {
      NewScreenKeepsBehind(s.grants, s.screens, s.credentials, t.screens[|s.screens|], None, k.value,
                           t.grants[k.value]);
    }
  }

  lemma {:induction false} ScreenCreatedKeepsInv(s: State, org: Id, now: int)
    requires Inv(s, now)
    ensures Inv(ScreenCreated(s, org), now)
  {
    hide DevicesSound, GrantsSound, IssuersCurrent;
    forall i | 0 <= i < |s.grants| ensures GrantBehind(s.grants[i], ScreenCreated(s, org).screens, s.credentials) {
      assert GrantBehind(s.grants[i], s.screens, s.credentials);
    }
  }

  // ------------------------------------------------------------------ making grants

  lemma {:induction false} RetiringKeepsFree(gs: seq<Grant>, hs: seq<Grant>, code: Id, now: int)
    requires |gs| == |hs| && forall i | 0 <= i < |gs| :: GrantRetires(gs[i], hs[i])
    requires forall i | 0 <= i < |gs| && CodeLive(gs[i], now) :: gs[i].codeHash != code
    ensures forall i | 0 <= i < |hs| && CodeLive(hs[i], now) :: hs[i].codeHash != code
  {
    forall i | 0 <= i < |hs| && CodeLive(hs[i], now) ensures hs[i].codeHash != code {
      assert GrantRetires(gs[i], hs[i]);
    }
  }

  lemma {:induction false} FreeIn(s: State, code: Id, now: int)
    requires Inv(s, now) && !CodeTaken(s.grants, code, now)
    ensures forall i | 0 <= i < |s.grants| && CodeLive(s.grants[i], now) :: s.grants[i].codeHash != code
  {
    FreeCode(s.grants, s.attempts, code, now);
  }

  lemma {:induction false} PairingCreatedKeepsInv(s: State, org: Id, code: Id, expiresAt: int, actor: Id, now: int)
    requires Inv(s, now)
    ensures Inv(PairingCreated(s, org, code, expiresAt, actor, now).0, now)
  {
    hide Inv, IsAdministrator, CodeTaken;
    var t := s.(grants := ExpiredCode(s.grants, code, now));
    if !CodeTaken(s.grants, code, now) {
      RetiringKeepsInv(s, t, now);
      FreeIn(s, code, now);
      RetiringKeepsFree(s.grants, t.grants, code, now);
      AddedGrantKeepsInv(t, OpenGrant(org, code, expiresAt), now);
    }
  }

  /** After revoking, no grant for the screen is pending. */
  lemma {:induction false} NonePendingAfter(s: State, screen: Id, cancel: Cancel, now: int)
    requires Inv(s, now)
    ensures var t := RevokedState(s, Targeting(screen), cancel);
            forall i | 0 <= i < |t.grants| :: !PendingFor(t.grants[i], screen)
  {
    var t := RevokedState(s, Targeting(screen), cancel);
    forall i | 0 <= i < |t.grants| ensures !PendingFor(t.grants[i], screen) {
      assert s.grants[i].pruned ==> !s.grants[i].status.Pending?;
    }
  }

  lemma {:induction false} NonePendingForEnrollment(s: State, org: Id, screen: Id, cancel: Cancel, now: int)
    requires Inv(s, now) && screen < |s.screens| && s.screens[screen].org == org && s.screens[screen].generation == 0
    ensures var t := RevokedState(s, EnrollingIn(org, screen), cancel);
            forall i | 0 <= i < |t.grants| :: !PendingFor(t.grants[i], screen)
  {
    var t := RevokedState(s, EnrollingIn(org, screen), cancel);
    forall i | 0 <= i < |t.grants| ensures !PendingFor(t.grants[i], screen) {
      assert s.grants[i].pruned ==> !s.grants[i].status.Pending?;
      assert GrantBehind(s.grants[i], s.screens, s.credentials);
    }
  }

  lemma {:induction false} NoneAttachedAfter(s: State, org: Id, screen: Id, now: int)
    requires Inv(s, now) && screen < |s.screens| && s.screens[screen].org == org
    ensures NoneAttached(DetachedState(s, AttachedTo(org, screen), now).credentials, screen)
  {
  }

  lemma {:induction false} ReenrollmentRequestedKeepsInv(
      s: State, org: Id, screen: Id, code: Id, expiresAt: int, actor: Id, now: int)
    requires Inv(s, now)
    ensures Inv(ReenrollmentRequested(s, org, screen, code, expiresAt, actor, now).0, now)
  {
    hide Inv, IsAdministrator, CodeTaken, PrunedState, RevokedState, DetachedState, IssuerOf, IssuerCurrent, Retires,
         GrantRetires, NoneAttached, PendingFor, CodeLive;
    if IsAdministrator(s.users, org, actor) && HasScreen(s.screens, org, screen) && !CodeTaken(s.grants, code, now) {
      var pruned := PrunedState(s, org, now, None);
      var revoked := RevokedState(pruned, Targeting(screen), Unbound);
      var detached := DetachedState(revoked, AttachedTo(org, screen), now);
      PruningKeepsInv(s, org, now, None, now);
      PruningFrame(s, org, now, None, code);
      RevokingKeepsInv(pruned, Targeting(screen), Unbound, now);
      RevokingFrame(pruned, Targeting(screen), Unbound, code, now);
      NonePendingAfter(pruned, screen, Unbound, now);
      DetachedKeepsInv(revoked, AttachedTo(org, screen), now, now);
      NoneAttachedAfter(revoked, org, screen, now);
      DetachingFrame(revoked, AttachedTo(org, screen), now);
      FreeIn(s, code, now);
      AdvancingKeepsInv(detached, screen, Advanced(detached, screen).screens[screen], now);
      var t := Advanced(detached, screen);
      var g :=
        TargetedGrant(org, code, expiresAt, Reenroll, screen, t.screens[screen].generation,
                      IssuerOf(s.users, org, actor));
      IssuerOfIsCurrent(s.users, org, actor);
      NewReenrollmentBehind(t, g, screen);
      AddedGrantKeepsInv(t, g, now);
    }
  }

  lemma {:induction false} NewReenrollmentBehind(t: State, g: Grant, screen: Id)
    requires screen < |t.screens| && g.target.Some? && g.target.value.screen == screen
             && g.target.value.purpose.Reenroll?
    requires 1 <= g.target.value.expectedGeneration == t.screens[screen].generation
             && NoneAttached(t.credentials, screen)
    ensures GrantBehind(g, t.screens, t.credentials)
  {
  }

  lemma {:induction false} IssuerOfIsCurrent(users: seq<Identity.User>, org: Id, user: Id)
    requires IsAdministrator(users, org, user)
    ensures IssuerCurrent(users, org, IssuerOf(users, org, user))
  {
  }

  lemma {:induction false} PruningFrame(s: State, org: Id, now: int, keep: Option<Id>, code: Id)
    requires Inv(s, now)
    ensures var t := PrunedState(s, org, now, keep);
            && t == s.(grants := t.grants, attempts := t.attempts, records := t.records) && |t.grants| == |s.grants|
            && ((forall i | 0 <= i < |s.grants| && CodeLive(s.grants[i], now) :: s.grants[i].codeHash != code) ==>
                  forall i | 0 <= i < |t.grants| && CodeLive(t.grants[i], now) :: t.grants[i].codeHash != code)
  {
    hide PrunedState, CodeLive, GrantRetires;
    PruningRetires(s, org, now, keep);
    var t := PrunedState(s, org, now, keep);
    if forall i | 0 <= i < |s.grants| && CodeLive(s.grants[i], now) :: s.grants[i].codeHash != code {
      RetiringKeepsFree(s.grants, t.grants, code, now);
    }
  }

  lemma {:induction false} RevokingFrame(s: State, sel: Selector, cancel: Cancel, code: Id, now: int)
    ensures var t := RevokedState(s, sel, cancel);
            && t == s.(grants := t.grants, attempts := t.attempts) && |t.grants| == |s.grants|
            && ((forall i | 0 <= i < |s.grants| && CodeLive(s.grants[i], now) :: s.grants[i].codeHash != code) ==>
                  forall i | 0 <= i < |t.grants| && CodeLive(t.grants[i], now) :: t.grants[i].codeHash != code)
  {
    hide RevokedState, CodeLive, GrantRetires;
    RevokingRetires(s, sel, cancel);
    var t := RevokedState(s, sel, cancel);
    if forall i | 0 <= i < |s.grants| && CodeLive(s.grants[i], now) :: s.grants[i].codeHash != code {
      RetiringKeepsFree(s.grants, t.grants, code, now);
    }
  }

  lemma {:induction false} DetachingFrame(s: State, p: Picked, now: int)
    ensures var t := DetachedState(s, p, now);
            t == s.(credentials := t.credentials, challenges := t.challenges) && |t.credentials| == |s.credentials|
  {
  }

  lemma {:induction false} EnrollmentRequestedKeepsInv(
      s: State, org: Id, screen: Id, codes: seq<Id>, actor: Id, k: Keyed, now: int)
    requires Inv(s, now)
    ensures Inv(EnrollmentRequested(s, org, screen, codes, actor, k, now).0, now)
  {
    hide Inv, IsAdministrator, CodeTaken, PrunedState, RevokedState, IssuerOf, IssuerCurrent, Retires, GrantRetires,
         FindRecord, RecordRefusal, PendingFor, CodeLive, HasAnyCredential;
    var keep := Some(k.keyHash);
    PruningKeepsInv(s, org, now, keep, now);
    var code := FirstFreeCode(s.grants, codes, now);
    if IsAdministrator(s.users, org, actor) && HasScreen(s.screens, org, screen) && Eligible(s, org, screen)
       && code.Some?
       && FindRecord(s.records, CreateRecord, org, k.keyHash).None?
    {
      var pruned := PrunedState(s, org, now, keep);
      var t := RevokedState(pruned, EnrollingIn(org, screen), Unbound);
      PruningFrame(s, org, now, keep, code.value);
      RevokingKeepsInv(pruned, EnrollingIn(org, screen), Unbound, now);
      RevokingFrame(pruned, EnrollingIn(org, screen), Unbound, code.value, now);
      NonePendingForEnrollment(pruned, org, screen, Unbound, now);
      FreeIn(s, code.value, now);
      IssuerOfIsCurrent(s.users, org, actor);
      var g := TargetedGrant(org, code.value, now + GRANT_LIFETIME, Enroll, screen, 0, IssuerOf(s.users, org, actor));
      AddedGrantKeepsInv(t, g, now);
      RecordsAreFree(t.(grants := t.grants + [g]), EnrollmentRequested(s, org, screen, codes, actor, k, now).0.records,
                     now);
    }
  }

  /** The invariant says nothing about the idempotency records. */
  lemma {:induction false} RecordsAreFree(s: State, records: seq<EnrollmentRecord>, now: int)
    requires Inv(s, now)
    ensures Inv(s.(records := records), now)
  {
  }

  // ------------------------------------------------------------------ activating

  lemma {:induction false} ReenrollmentActivatedKeepsInv(
      s: State, org: Id, screen: Id, grant: Id, attempt: Id, actor: Id, now: int)
    requires Inv(s, now)
    ensures Inv(ReenrollmentActivated(s, org, screen, grant, attempt, actor, now).0, now)
  {
    hide Inv, IsAdministrator, IssuerCurrent, HasKey, Attached, RevokedState;
    var (t, r) := ReenrollmentActivated(s, org, screen, grant, attempt, actor, now);
    if r.Active? && !r.replayed {
      ReenrollmentFindsNone(s, screen, grant, now);
      AttachedKeepsInv(s, screen, grant, attempt, now);
      RevokingKeepsInv(Attached(s, screen, grant, attempt), Targeting(screen), Nothing, now);
    }
  }

  /** The heart of the matter: a pending re-enrollment at the screen's generation finds no attached credential. */
  lemma {:induction false} ReenrollmentFindsNone(s: State, screen: Id, grant: Id, now: int)
    requires Inv(s, now) && screen < |s.screens| && grant < |s.grants| && s.grants[grant].status.Pending?
    requires HasTargetedGrant(s.grants, grant, screen, Reenroll)
    requires s.grants[grant].target.value.expectedGeneration == s.screens[screen].generation
    ensures NoneAttached(s.credentials, screen)
  {
    assert GrantBehind(s.grants[grant], s.screens, s.credentials);
  }

  lemma {:induction false} EnrollmentFindsNone(s: State, org: Id, screen: Id, now: int)
    requires Inv(s, now) && HasScreen(s.screens, org, screen) && !HasAnyCredential(s.credentials, org, screen)
    ensures NoneAttached(s.credentials, screen)
  {
    assert forall i | 0 <= i < |s.credentials| && s.credentials[i].screen == screen ::
             OfScreen(s.credentials[i], org, screen);
  }

  lemma {:induction false} KeyIsFree(s: State, key: Id, now: int)
    requires Inv(s, now) && key !in s.usedKeys
    ensures !HasKey(s.credentials, key)
  {
  }

  /** Pruning leaves a pending unexpired grant and its attempts alone. */
  lemma {:induction false} PruningKeepsLive(s: State, org: Id, now: int, keep: Option<Id>, grant: Id, attempt: Id)
    requires Inv(s, now) && grant < |s.grants| && CodeLive(s.grants[grant], now) && !s.grants[grant].pruned
    requires attempt < |s.attempts| && s.attempts[attempt].grant == grant
    ensures var t := PrunedState(s, org, now, keep);
            && |t.grants| == |s.grants| && |t.attempts| == |s.attempts| && t.screens == s.screens
               && t.credentials == s.credentials
            && t.grants[grant] == s.grants[grant] && t.attempts[attempt] == s.attempts[attempt]
  {
    hide PrunedState, GrantRetires, AttemptRetires;
    PruningRetires(s, org, now, keep);
  }

  lemma {:induction false} EnrollmentActivatedKeepsInv(
      s: State, org: Id, screen: Id, grant: Id, attempt: Id, fingerprint: Id, actor: Id, k: Keyed, now: int)
    requires Inv(s, now)
    ensures Inv(EnrollmentActivated(s, org, screen, grant, attempt, fingerprint, actor, k, now).0, now)
  {
    hide Inv, IsAdministrator, IssuerCurrent, HasKey, Attached, RevokedState, PrunedState, FindRecord, RecordRefusal,
         HasAnyCredential, NoneAttached;
    var keep := Some(k.keyHash);
    PruningKeepsInv(s, org, now, keep, now);
    var (t, r) := EnrollmentActivated(s, org, screen, grant, attempt, fingerprint, actor, k, now);
    if r.Active? && !r.replayed {
      EnrollmentFindsNone(s, org, screen, now);
      KeyIsFree(s, s.attempts[attempt].key, now);
      PruningKeepsLive(s, org, now, keep, grant, attempt);
      var pruned := PrunedState(s, org, now, keep);
      AttachedKeepsInv(pruned, screen, grant, attempt, now);
      var attached := Attached(pruned, screen, grant, attempt);
      RevokingKeepsInv(attached, TargetingIn(org, screen), Unbound, now);
      RecordsAreFree(RevokedState(attached, TargetingIn(org, screen), Unbound), t.records, now);
    }
  }

  // ------------------------------------------------------------------ proofs

  lemma {:induction false} ProofIssuedKeepsInv(s: State, r: ProofRequest, now: int)
    requires Inv(s, now)
    ensures Inv(ProofIssued(s, r, now).0, now)
  {
    hide Inv, IssuerCurrent, HasKey, HashSeen, OutstandingAttempts;
    var k := FindCode(s.grants, r.codeHash, now);
    if ProofIssued(s, r, now).1.Some? {
      AddedAttemptKeepsInv(s, NewAttempt(s.grants[k.value].org, k.value, r), now);
    }
  }

  lemma {:induction false} ClaimFinishedKeepsInv(s: State, c: Claim, now: int)
    requires Inv(s, now) && c.attempt < |s.attempts| && c.grant < |s.grants| && s.attempts[c.attempt].grant == c.grant
    ensures Inv(ClaimFinished(s, c, now).0, now)
  {
    hide Inv, IssuerCurrent, HasKey, AttachedToNew, ProvedAttempts;
    var a, g := s.attempts[c.attempt], s.grants[c.grant];
    if g.status.Pending? && !HasKey(s.credentials, a.key) {
      if g.target.Some? {
        if |ProvedAttempts(s.attempts, c.grant)| < LIMIT { ProvedKeepsInv(s, c.attempt, c.installation, now); }
      } else {
        AttachedToNewKeepsInv(s, c, now);
      }
    }
  }

  // ------------------------------------------------------------------ challenges

  lemma {:induction false} IssueFinishedKeepsInv(s: State, i: Issue, now: int)
    requires Inv(s, now) && (i.credential.Some? ==> i.credential.value < |s.credentials|)
    ensures Inv(IssueFinished(s, i, now).0, now)
  {
    hide KeysBurnt, OneAttached, RevokedTogether, GrantsSound, GrantsBehind, OriginsClaimed, IssuersCurrent, DroppedNow,
         LiveBounded, LiveChallenges;
    if IssueFinished(s, i, now).1.Some? {
      var kept := KeptChallenges(s.challenges, now);
      forall j | 0 <= j < |kept| ensures ChallengeCloses(s.challenges[j], kept[j]) { }
      ClosingKeepsLiveBound(s.challenges, kept, now);
      KeptLiveShrinks(s.challenges, i.credential.value, i.r.activity, now);
      var c := IssueFinished(s, i, now).0.challenges[|kept|];
      AddedChallengeKeepsBound(kept, c, now);
    }
  }

  lemma {:induction false} KeptLiveShrinks(challenges: seq<Challenge>, credential: Id, activity: Activity, now: int)
    ensures |LiveChallenges(KeptChallenges(challenges, now), credential, activity, now)|
            <= |LiveChallenges(challenges, credential, activity, now)|
  {
    hide DroppedNow;
    SmallerSet(LiveChallenges(KeptChallenges(challenges, now), credential, activity, now),
               LiveChallenges(challenges, credential, activity, now));
  }

  lemma {:induction false} AddedChallengeKeepsBound(cs: seq<Challenge>, c: Challenge, now: int)
    requires LiveBounded(cs, now) && |LiveChallenges(cs, c.credential, c.activity, now)| < LIMIT
    ensures LiveBounded(cs + [c], now)
  {
    var ds := cs + [c];
    forall k, activity ensures |LiveChallenges(ds, k, activity, now)| <= LIMIT {
      if k == c.credential && activity == c.activity {
        OneMore(LiveChallenges(ds, k, activity, now), LiveChallenges(cs, k, activity, now), |cs|);
      } else {
        SmallerSet(LiveChallenges(ds, k, activity, now), LiveChallenges(cs, k, activity, now));
      }
    }
  }

  lemma {:induction false} ProofFinishedKeepsInv(s: State, p: Proof, now: int)
    requires Inv(s, now)
    ensures Inv(ProofFinished(s, p, now).0, now)
  {
    hide Inv, RevokedTogether, IsActive;
    RevokedTogetherIn(s, now);
    DetachingKeepsInv(s, ProofFinished(s, p, now).0, now);
  }

  // ------------------------------------------------------------------ revoking

  lemma {:induction false} AdvancedKeepsInv(s: State, screen: Id, now: int)
    requires Inv(s, now) && screen < |s.screens|
    ensures Inv(Advanced(s, screen), now)
  {
    hide Inv;
    AdvancingKeepsInv(s, screen, Advanced(s, screen).screens[screen], now);
  }

  lemma {:induction false} CredentialRevokedKeepsInv(s: State, org: Id, screen: Id, actor: Id, now: int)
    requires Inv(s, now)
    ensures Inv(CredentialRevoked(s, org, screen, actor, now).0, now)
  {
    hide Inv, IsAdministrator, CredentialToRevoke, HasPending, RevokedState, DetachedState, Advanced;
    var c := CredentialToRevoke(s.credentials, org, screen);
    if HasScreen(s.screens, org, screen) {
      RevokingKeepsInv(s, TargetingIn(org, screen), Unconsumed, now);
      RevokingFrame(s, TargetingIn(org, screen), Unconsumed, 0, now);
      AdvancedKeepsInv(RevokedState(s, TargetingIn(org, screen), Unconsumed), screen, now);
      if c.Some? {
        DetachedKeepsInv(s, Single(c.value), now, now);
        DetachingFrame(s, Single(c.value), now);
        AdvancedKeepsInv(DetachedState(s, Single(c.value), now), screen, now);
        RevokingKeepsInv(Advanced(DetachedState(s, Single(c.value), now), screen), Targeting(screen), Unconsumed, now);
      }
    }
  }

  lemma {:induction false} ScreenDeletedKeepsInv(s: State, org: Id, screen: Id, actor: Id, now: int)
    requires Inv(s, now)
    ensures Inv(ScreenDeleted(s, org, screen, actor, now).0, now)
  {
    hide Inv, IsAdministrator, RevokedState, DetachedState;
    if HasScreen(s.screens, org, screen) {
      var detached := DetachedState(s, EverOn(org, screen), now);
      DetachedKeepsInv(s, EverOn(org, screen), now, now);
      DetachingFrame(s, EverOn(org, screen), now);
      RevokingKeepsInv(detached, Targeting(screen), Nothing, now);
      RevokingFrame(detached, Targeting(screen), Nothing, 0, now);
      var t := RevokedState(detached, Targeting(screen), Nothing);
      AdvancingKeepsInv(t, screen, t.screens[screen].(deleted := true), now);
    }
  }

  // ------------------------------------------------------------------ identity mutations

  /** With unique rows, an active row is the one that is found. */
  lemma {:induction false} ActiveIsFound(users: seq<Identity.User>, u: Identity.User)
    requires UniqueRows(users) && u in users && u.disabledAt.None?
    ensures Identity.FindActive(users, u.id, u.org) == Some(u)
  {
    var i :| 0 <= i < |users| && users[i] == u;
    var r := Identity.FindActive(users, u.id, u.org);
    assert Identity.IsRow(u, u.id, u.org);
    var j :| 0 <= j < |users| && users[j] == r.value;
  }

  /** A mutation that does not concern the issuer leaves the issuer as current as it was. */
  lemma {:induction false} IssuerStays(
      users: seq<Identity.User>, sessions: seq<Identity.Session>, m: Identity.Mutation, now: int, org: Id, i: Issuer)
    requires UniqueRows(users) && IssuerCurrent(users, org, i)
    requires var before := Identity.State(users, sessions, 0);
             Identity.Judge(before, m, now).Applied? && !Identity.Concerns(m, i.user, org)
    ensures IssuerCurrent(Identity.Mutated(Identity.State(users, sessions, 0), m, now).users, org, i)
  {
    hide Identity.Judge;
    var before := Identity.State(users, sessions, 0);
    var u := Identity.FindActive(users, i.user, org).value;
    var after := Identity.Mutated(before, m, now).users;
    var k :| 0 <= k < |users| && users[k] == u;
    assert u in after by {
      if !m.RemoveMembership? { assert after[k] == u; }
    }
    MutationKeepsUniqueRows(before, m, now);
    ActiveIsFound(after, u);
  }

  /** The organizations a mutation reports are those in which it changes a row. */
  lemma {:induction false} ConcernedOrganizations(
      before: Identity.State, m: Identity.Mutation, now: int, u: Identity.User)
    requires Identity.Judge(before, m, now).Applied? && u in before.users && Identity.Concerns(m, u.id, u.org)
    ensures u.org in Identity.Judge(before, m, now).orgs
  {
    var k :| 0 <= k < |before.users| && before.users[k] == u;
    assert u.org in Identity.OrganizationsOf(before.users, u.id);
  }

  lemma {:induction false} UserMutatedKeepsInv(
      s: State, m: Identity.Mutation, sessions: seq<Identity.Session>, now: int)
    requires Inv(s, now)
    ensures Inv(UserMutated(s, m, sessions, now), now)
  {
    hide Identity.Judge, Identity.Mutated, DevicesSound, GrantsSound, GrantsBehind, OriginsClaimed, IssuerCurrent,
         UniqueRows, Retires;
    var before := Identity.State(s.users, sessions, 0);
    var outcome := Identity.Judge(before, m, now);
    if outcome.Applied? {
      var sel := IssuedBy(m.user, outcome.orgs);
      RevokingKeepsInv(s, sel, Unbound, now);
      MutationKeepsUniqueRows(before, m, now);
      var t := RevokedState(s, sel, Unbound);
      var users := Identity.Mutated(before, m, now).users;
      forall i | 0 <= i < |t.grants| && t.grants[i].status.Pending? && t.grants[i].target.Some?
        ensures IssuerCurrent(users, t.grants[i].org, t.grants[i].target.value.issuer)
      {
        var g := t.grants[i];
        PendingIsNotPruned(s, i, now);
        assert g == s.grants[i];
        var issuer := g.target.value.issuer;
        if Identity.Concerns(m, issuer.user, g.org) {
          IssuerHasRow(s.users, g.org, issuer);
          ConcernedOrganizations(before, m, now, Identity.FindActive(s.users, issuer.user, g.org).value);
        } else {
          IssuerStays(s.users, sessions, m, now, g.org, issuer);
        }
      }
    }
  }

  lemma {:induction false} PendingIsNotPruned(s: State, i: nat, now: int)
    requires Inv(s, now) && i < |s.grants| && s.grants[i].status.Pending?
    ensures !s.grants[i].pruned
  {
  }

  lemma {:induction false} IssuerHasRow(users: seq<Identity.User>, org: Id, i: Issuer)
    requires IssuerCurrent(users, org, i)
    ensures var u := Identity.FindActive(users, i.user, org);
            u.Some? && u.value in users && u.value.id == i.user && u.value.org == org
  {
  }

  // ------------------------------------------------------------------ time

  lemma {:induction false} TimePasses(s: State, now: int, later: int)
    requires Inv(s, now) && now <= later
    ensures Inv(s, later)
  {
    forall g, key ensures |OutstandingAttempts(s.attempts, g, key, later)| <= LIMIT {
      SmallerSet(OutstandingAttempts(s.attempts, g, key, later), OutstandingAttempts(s.attempts, g, key, now));
    }
    forall c, activity ensures |LiveChallenges(s.challenges, c, activity, later)| <= LIMIT {
      SmallerSet(LiveChallenges(s.challenges, c, activity, later), LiveChallenges(s.challenges, c, activity, now));
    }
  }
}
