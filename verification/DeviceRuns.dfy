/**
 Runs of the device protocol. A claim, the issue of a challenge and the consumption of a proof are
 each split where the store awaits, and any other request may come in between.
 */
module DeviceRuns {
  import opened Common
  import opened Devices
  import opened DeviceInvariants
  import opened DeviceSteps
  import Identity
  import opened IdentityEpochs

  /** The store and the requests suspended in it. */
  datatype Machine = Machine(state: State, claims: seq<Claim>, issues: seq<Issue>, proofs: seq<Proof>)

  datatype Request =
    | CreateScreen(org: Id)
    | CreatePairing(org: Id, code: Id, expiresAt: int, actor: Id)
    | RequestReenrollment(org: Id, screen: Id, code: Id, expiresAt: int, actor: Id)
    | RequestEnrollment(org: Id, screen: Id, codes: seq<Id>, actor: Id, keyed: Keyed)
    | ActivateReenrollment(org: Id, screen: Id, grant: Id, attempt: Id, actor: Id)
    | ActivateEnrollment(org: Id, screen: Id, grant: Id, attempt: Id, fingerprint: Id, actor: Id, keyed: Keyed)
    | CancelGrant(org: Id, screen: Id, grant: Id, purpose: Purpose, actor: Id)
    | ClaimWithToken(code: Id, installation: Id, token: Id)
    | IssueProof(wanted: ProofRequest)
    | BeginClaim(codeHash: Id, attempt: Id, hash: Id, transcript: Id, key: Id, installation: Id)
    | FinishClaim(claim: nat, verified: bool)
    | BeginIssue(challenge: ChallengeRequest)
    | FinishIssue(issue: nat)
    | BeginProof(input: ProofInput)
    | FinishProof(proof: nat, verified: bool)
    | RevokeCredential(org: Id, screen: Id, actor: Id)
    | DeleteScreen(org: Id, screen: Id, actor: Id)
    | MutateUser(m: Identity.Mutation, sessions: seq<Identity.Session>)

  datatype Event = Event(at: int, request: Request)

  predicate ClaimRefers(s: State, c: Claim) {
    c.attempt < |s.attempts| && c.grant < |s.grants| && s.attempts[c.attempt].grant == c.grant
  }

  predicate IssueRefers(s: State, i: Issue) { i.credential.Some? ==> i.credential.value < |s.credentials| }

  /** What the event does to the store. */
  function Effect(m: Machine, e: Event): State {
    var s := m.state;
    match e.request
    case CreateScreen(org) => ScreenCreated(s, org)
    case CreatePairing(org, code, expiresAt, actor) => PairingCreated(s, org, code, expiresAt, actor, e.at).0
    case RequestReenrollment(org, screen, code, expiresAt, actor) =>
      ReenrollmentRequested(s, org, screen, code, expiresAt, actor, e.at).0
    case RequestEnrollment(org, screen, codes, actor, keyed) =>
      EnrollmentRequested(s, org, screen, codes, actor, keyed, e.at).0
    case ActivateReenrollment(org, screen, grant, attempt, actor) =>
      ReenrollmentActivated(s, org, screen, grant, attempt, actor, e.at).0
    case ActivateEnrollment(org, screen, grant, attempt, fingerprint, actor, keyed) =>
      EnrollmentActivated(s, org, screen, grant, attempt, fingerprint, actor, keyed, e.at).0
    case CancelGrant(org, screen, grant, purpose, actor) => GrantCancelled(s, org, screen, grant, purpose, actor).0
    case ClaimWithToken(code, installation, token) => PairingClaimed(s, code, installation, token, e.at).0
    case IssueProof(wanted) => ProofIssued(s, wanted, e.at).0
    case BeginClaim(_, _, _, _, _, _) => s
    case FinishClaim(k, verified) =>
      if k < |m.claims| && verified && ClaimRefers(s, m.claims[k]) then ClaimFinished(s, m.claims[k], e.at).0 else s
    case BeginIssue(_) => s
    case FinishIssue(k) =>
      if k < |m.issues| && IssueRefers(s, m.issues[k]) then IssueFinished(s, m.issues[k], e.at).0 else s
    case BeginProof(_) => s
    case FinishProof(k, verified) => if k < |m.proofs| && verified then ProofFinished(s, m.proofs[k], e.at).0 else s
    case RevokeCredential(org, screen, actor) => CredentialRevoked(s, org, screen, actor, e.at).0
    case DeleteScreen(org, screen, actor) => ScreenDeleted(s, org, screen, actor, e.at).0
    case MutateUser(mutation, sessions) => UserMutated(s, mutation, sessions, e.at)
  }

  function Step(m: Machine, e: Event): Machine {
    var s := m.state;
    var r := e.request;
    var claim :=
      if r.BeginClaim? then ClaimBegun(s, r.codeHash, r.attempt, r.hash, r.transcript, r.key, r.installation) else None;
    var proof := if r.BeginProof? then ProofBegun(s, r.input, e.at) else None;
    Machine(Effect(m, e),
            if claim.Some? then m.claims + [claim.value] else m.claims,
            if r.BeginIssue? then m.issues + [IssueBegun(s, r.challenge, e.at)] else m.issues,
            if proof.Some? then m.proofs + [proof.value] else m.proofs)
  }

  /** The machine after the first `i` events. */
  function At(m: Machine, es: seq<Event>, i: nat): Machine
    requires i <= |es|
  {
    if i == 0 then m else Step(At(m, es, i - 1), es[i - 1])
  }

  ghost predicate Clocked(from: int, es: seq<Event>) {
    && (forall i | 0 <= i < |es| :: from <= es[i].at)
    && (forall i, j | 0 <= i < j < |es| :: es[i].at <= es[j].at)
  }

  function ClockAt(from: int, es: seq<Event>, i: nat): int
    requires i <= |es|
  {
    if i == 0 then from else es[i - 1].at
  }

  // ------------------------------------------------------------------ nothing goes back

  /** A grant leaves the pending state at most once. */
  predicate GrantGoesOn(g: Grant, h: Grant) {
    && h == g.(status := h.status, screen := h.screen, pruned := h.pruned)
    && (!g.status.Pending? ==> h.status == g.status && h.screen == g.screen)
    && (g.pruned ==> h.pruned)
  }

  predicate AttemptGoesOn(a: Attempt, b: Attempt) {
    && b.org == a.org && b.grant == a.grant && b.key == a.key
    && (a.proved ==> b.proved) && (a.consumed ==> b.consumed)
    && (a.cancelled ==> b.cancelled) && (a.bound.Some? ==> b.bound == a.bound)
  }

  ghost predicate GrantsGoOn(gs: seq<Grant>, hs: seq<Grant>) {
    |gs| <= |hs| && forall i | 0 <= i < |gs| :: GrantGoesOn(gs[i], hs[i])
  }

  ghost predicate AttemptsGoOn(as_: seq<Attempt>, bs: seq<Attempt>) {
    |as_| <= |bs| && forall i | 0 <= i < |as_| :: AttemptGoesOn(as_[i], bs[i])
  }

  ghost predicate CredentialsGoOn(cs: seq<Credential>, ds: seq<Credential>) {
    |cs| <= |ds| && forall i | 0 <= i < |cs| :: CredentialDetaches(cs[i], ds[i])
  }

  ghost predicate ChallengesGoOn(cs: seq<Challenge>, ds: seq<Challenge>) {
    |cs| <= |ds| && forall i | 0 <= i < |cs| :: ChallengeCloses(cs[i], ds[i])
  }

  ghost predicate ScreensGoOn(xs: seq<Screen>, ys: seq<Screen>) {
    |xs| <= |ys| && forall i | 0 <= i < |xs| :: ScreenAdvances(xs[i], ys[i])
  }

  /** Records stay in their places; generations never decrease; keys stay burnt; what is closed stays closed. */
  ghost predicate GoesOn(s: State, t: State) {
    && GrantsGoOn(s.grants, t.grants) && AttemptsGoOn(s.attempts, t.attempts)
    && CredentialsGoOn(s.credentials, t.credentials) && ChallengesGoOn(s.challenges, t.challenges)
    && ScreensGoOn(s.screens, t.screens) && s.usedKeys <= t.usedKeys
  }

  lemma {:induction false} GoingOnIsTransitive(s: State, t: State, u: State)
    requires GoesOn(s, t) && GoesOn(t, u)
    ensures GoesOn(s, u)
  {
    forall i | 0 <= i < |s.grants| ensures GrantGoesOn(s.grants[i], u.grants[i]) {
      assert GrantGoesOn(s.grants[i], t.grants[i]) && GrantGoesOn(t.grants[i], u.grants[i]);
    }
    forall i | 0 <= i < |s.attempts| ensures AttemptGoesOn(s.attempts[i], u.attempts[i]) {
      assert AttemptGoesOn(s.attempts[i], t.attempts[i]) && AttemptGoesOn(t.attempts[i], u.attempts[i]);
    }
    forall i | 0 <= i < |s.credentials| ensures CredentialDetaches(s.credentials[i], u.credentials[i]) {
      assert CredentialDetaches(s.credentials[i], t.credentials[i])
             && CredentialDetaches(t.credentials[i], u.credentials[i]);
    }
    forall i | 0 <= i < |s.challenges| ensures ChallengeCloses(s.challenges[i], u.challenges[i]) {
      assert ChallengeCloses(s.challenges[i], t.challenges[i]) && ChallengeCloses(t.challenges[i], u.challenges[i]);
    }
    forall i | 0 <= i < |s.screens| ensures ScreenAdvances(s.screens[i], u.screens[i]) {
      assert ScreenAdvances(s.screens[i], t.screens[i]) && ScreenAdvances(t.screens[i], u.screens[i]);
    }
  }

  lemma {:induction false} RetiringGoesOn(s: State, t: State)
    requires Retires(s.grants, s.attempts, t.grants, t.attempts)
    requires t == s.(grants := t.grants, attempts := t.attempts, records := t.records)
    ensures GoesOn(s, t)
  {
    assert forall i | 0 <= i < |s.grants| :: GrantRetires(s.grants[i], t.grants[i]);
    assert forall i | 0 <= i < |s.attempts| :: AttemptRetires(s.attempts[i], t.attempts[i], t.grants);
  }

  lemma {:induction false} RevokingGoesOn(s: State, sel: Selector, cancel: Cancel)
    ensures GoesOn(s, RevokedState(s, sel, cancel))
  {
    hide RevokedState, Retires, GoesOn;
    RevokingRetires(s, sel, cancel);
    RetiringGoesOn(s, RevokedState(s, sel, cancel));
  }

  lemma {:induction false} PruningGoesOn(s: State, org: Id, now: int, keep: Option<Id>)
    ensures GoesOn(s, PrunedState(s, org, now, keep))
  {
    hide PrunedState, Retires, GoesOn;
    PruningRetires(s, org, now, keep);
    RetiringGoesOn(s, PrunedState(s, org, now, keep));
  }

  lemma {:induction false} DetachedGoesOn(s: State, p: Picked, now: int)
    ensures GoesOn(s, DetachedState(s, p, now))
  {
    hide Picks, Invalidated;
    forall i | 0 <= i < |s.challenges| && Invalidated(s.credentials, p, s.challenges[i], now)
      ensures s.challenges[i].consumedAt.None?
    {
      InvalidatedWasOpen(s.credentials, p, s.challenges[i], now);
    }
  }

  lemma {:induction false} AdvancedGoesOn(s: State, screen: Id)
    requires screen < |s.screens|
    ensures GoesOn(s, Advanced(s, screen))
  {
  }

  lemma {:induction false} AddedGrantGoesOn(s: State, g: Grant, records: seq<EnrollmentRecord>)
    ensures GoesOn(s, s.(grants := s.grants + [g], records := records))
  {
  }

  lemma {:induction false} AttachedGoesOn(s: State, screen: Id, grant: Id, attempt: Id)
    requires screen < |s.screens| && grant < |s.grants| && attempt < |s.attempts|
    requires s.grants[grant].status.Pending? && s.attempts[attempt].bound.None?
    ensures GoesOn(s, Attached(s, screen, grant, attempt))
  {
  }

  lemma {:induction false} PendingIsUnbound(s: State, attempt: Id, now: int)
    requires Inv(s, now) && attempt < |s.attempts| && s.attempts[attempt].grant < |s.grants|
    requires s.grants[s.attempts[attempt].grant].status.Pending?
    ensures s.attempts[attempt].bound.None?
  {
  }

  lemma {:induction false} ReenrollmentRequestedGoesOn(
      s: State, org: Id, screen: Id, code: Id, expiresAt: int, actor: Id, now: int)
    ensures GoesOn(s, ReenrollmentRequested(s, org, screen, code, expiresAt, actor, now).0)
  {
    hide IsAdministrator, CodeTaken, PrunedState, RevokedState, DetachedState, IssuerOf, GoesOn, Retires;
    StaysGoesOn(s);
    if IsAdministrator(s.users, org, actor) && HasScreen(s.screens, org, screen) && !CodeTaken(s.grants, code, now) {
      var pruned := PrunedState(s, org, now, None);
      var revoked := RevokedState(pruned, Targeting(screen), Unbound);
      var detached := DetachedState(revoked, AttachedTo(org, screen), now);
      PruningGoesOn(s, org, now, None);
      PruningRetires(s, org, now, None);
      RevokingGoesOn(pruned, Targeting(screen), Unbound);
      RevokingRetires(pruned, Targeting(screen), Unbound);
      DetachedGoesOn(revoked, AttachedTo(org, screen), now);
      DetachingFrame(revoked, AttachedTo(org, screen), now);
      AdvancedGoesOn(detached, screen);
      var t := Advanced(detached, screen);
      var g :=
        TargetedGrant(org, code, expiresAt, Reenroll, screen, t.screens[screen].generation,
                      IssuerOf(s.users, org, actor));
      AddedGrantGoesOn(t, g, t.records);
      GoingOnIsTransitive(s, pruned, revoked);
      GoingOnIsTransitive(s, revoked, detached);
      GoingOnIsTransitive(s, detached, t);
      GoingOnIsTransitive(s, t, t.(grants := t.grants + [g], records := t.records));
    }
  }

  lemma {:induction false} StaysGoesOn(s: State)
    ensures GoesOn(s, s)
  {
  }

  lemma {:induction false} EnrollmentRequestedGoesOn(
      s: State, org: Id, screen: Id, codes: seq<Id>, actor: Id, k: Keyed, now: int)
    ensures GoesOn(s, EnrollmentRequested(s, org, screen, codes, actor, k, now).0)
  {
    hide IsAdministrator, CodeTaken, PrunedState, RevokedState, IssuerOf, GoesOn, FindRecord, RecordRefusal, Eligible,
         FirstFreeCode;
    StaysGoesOn(s);
    var pruned := PrunedState(s, org, now, Some(k.keyHash));
    PruningGoesOn(s, org, now, Some(k.keyHash));
    var revoked := RevokedState(pruned, EnrollingIn(org, screen), Unbound);
    RevokingGoesOn(pruned, EnrollingIn(org, screen), Unbound);
    GoingOnIsTransitive(s, pruned, revoked);
    var t := EnrollmentRequested(s, org, screen, codes, actor, k, now).0;
    if t != s && t != pruned {
      AddedGrantGoesOn(revoked, t.grants[|revoked.grants|], t.records);
      GoingOnIsTransitive(s, revoked,
                          revoked.(grants := revoked.grants + [t.grants[|revoked.grants|]], records := t.records));
    }
  }

  lemma {:induction false} ReenrollmentActivatedGoesOn(
      s: State, org: Id, screen: Id, grant: Id, attempt: Id, actor: Id, now: int)
    requires Inv(s, now)
    ensures GoesOn(s, ReenrollmentActivated(s, org, screen, grant, attempt, actor, now).0)
  {
    hide Inv, IsAdministrator, IssuerCurrent, HasKey, Attached, RevokedState, GoesOn;
    StaysGoesOn(s);
    var (t, r) := ReenrollmentActivated(s, org, screen, grant, attempt, actor, now);
    if r.Active? && !r.replayed {
      PendingIsUnbound(s, attempt, now);
      AttachedGoesOn(s, screen, grant, attempt);
      RevokingGoesOn(Attached(s, screen, grant, attempt), Targeting(screen), Nothing);
      GoingOnIsTransitive(s, Attached(s, screen, grant, attempt), t);
    }
  }

  lemma {:induction false} EnrollmentActivatedGoesOn(
      s: State, org: Id, screen: Id, grant: Id, attempt: Id, fingerprint: Id, actor: Id, k: Keyed, now: int)
    requires Inv(s, now)
    ensures GoesOn(s, EnrollmentActivated(s, org, screen, grant, attempt, fingerprint, actor, k, now).0)
  {
    hide Inv, IsAdministrator, IssuerCurrent, Attached, RevokedState, PrunedState, GoesOn, FindRecord, RecordRefusal,
         HasAnyCredential;
    StaysGoesOn(s);
    var keep := Some(k.keyHash);
    var pruned := PrunedState(s, org, now, keep);
    PruningGoesOn(s, org, now, keep);
    var (t, r) := EnrollmentActivated(s, org, screen, grant, attempt, fingerprint, actor, k, now);
    if r.Active? && !r.replayed {
      PruningKeepsLive(s, org, now, keep, grant, attempt);
      PendingIsUnbound(s, attempt, now);
      var attached := Attached(pruned, screen, grant, attempt);
      AttachedGoesOn(pruned, screen, grant, attempt);
      var revoked := RevokedState(attached, TargetingIn(org, screen), Unbound);
      RevokingGoesOn(attached, TargetingIn(org, screen), Unbound);
      GoingOnIsTransitive(s, pruned, attached);
      GoingOnIsTransitive(s, attached, revoked);
      RecordsGoOn(s, revoked, t.records);
    }
  }

  lemma {:induction false} RecordsGoOn(s: State, t: State, records: seq<EnrollmentRecord>)
    requires GoesOn(s, t)
    ensures GoesOn(s, t.(records := records))
  {
  }

  lemma {:induction false} CredentialRevokedGoesOn(s: State, org: Id, screen: Id, actor: Id, now: int)
    ensures GoesOn(s, CredentialRevoked(s, org, screen, actor, now).0)
  {
    hide IsAdministrator, CredentialToRevoke, HasPending, RevokedState, DetachedState, Advanced, GoesOn;
    StaysGoesOn(s);
    var c := CredentialToRevoke(s.credentials, org, screen);
    if HasScreen(s.screens, org, screen) {
      var revoked := RevokedState(s, TargetingIn(org, screen), Unconsumed);
      RevokingGoesOn(s, TargetingIn(org, screen), Unconsumed);
      RevokingRetires(s, TargetingIn(org, screen), Unconsumed);
      AdvancedGoesOn(revoked, screen);
      GoingOnIsTransitive(s, revoked, Advanced(revoked, screen));
      if c.Some? {
        var detached := DetachedState(s, Single(c.value), now);
        DetachedGoesOn(s, Single(c.value), now);
        DetachingFrame(s, Single(c.value), now);
        AdvancedGoesOn(detached, screen);
        var moved := Advanced(detached, screen);
        RevokingGoesOn(moved, Targeting(screen), Unconsumed);
        GoingOnIsTransitive(s, detached, moved);
        GoingOnIsTransitive(s, moved, RevokedState(moved, Targeting(screen), Unconsumed));
      }
    }
  }

  lemma {:induction false} ScreenDeletedGoesOn(s: State, org: Id, screen: Id, actor: Id, now: int)
    ensures GoesOn(s, ScreenDeleted(s, org, screen, actor, now).0)
  {
    hide IsAdministrator, RevokedState, DetachedState, GoesOn;
    StaysGoesOn(s);
    if HasScreen(s.screens, org, screen) {
      var detached := DetachedState(s, EverOn(org, screen), now);
      DetachedGoesOn(s, EverOn(org, screen), now);
      DetachingFrame(s, EverOn(org, screen), now);
      RevokingGoesOn(detached, Targeting(screen), Nothing);
      RevokingRetires(detached, Targeting(screen), Nothing);
      var t := RevokedState(detached, Targeting(screen), Nothing);
      GoingOnIsTransitive(s, detached, t);
      DeletedGoesOn(t, screen);
      GoingOnIsTransitive(s, t, t.(screens := t.screens[screen := t.screens[screen].(deleted := true)]));
    }
  }

  lemma {:induction false} DeletedGoesOn(s: State, screen: Id)
    requires screen < |s.screens|
    ensures GoesOn(s, s.(screens := s.screens[screen := s.screens[screen].(deleted := true)]))
  {
  }

  lemma {:induction false} ProvedGoesOn(s: State, k: nat, installation: Id)
    requires k < |s.attempts|
    ensures GoesOn(s,
                   s.(attempts := s.attempts[k := s.attempts[k].(proved := true, installation := Some(installation))]))
  {
  }

  lemma {:induction false} AttachedToNewGoesOn(s: State, c: Claim)
    requires ClaimRefers(s, c) && s.grants[c.grant].status.Pending? && s.attempts[c.attempt].bound.None?
    ensures GoesOn(s, AttachedToNew(s, c))
  {
  }

  lemma {:induction false} ClaimFinishedGoesOn(s: State, c: Claim, now: int)
    requires Inv(s, now) && ClaimRefers(s, c)
    ensures GoesOn(s, ClaimFinished(s, c, now).0)
  {
    hide Inv, IssuerCurrent, HasKey, ProvedAttempts, AttachedToNew, GoesOn, Unexpired;
    StaysGoesOn(s);
    ProvedGoesOn(s, c.attempt, c.installation);
    if s.grants[c.grant].status.Pending? {
      PendingIsUnbound(s, c.attempt, now);
      AttachedToNewGoesOn(s, c);
    }
  }

  lemma {:induction false} UserMutatedGoesOn(s: State, m: Identity.Mutation, sessions: seq<Identity.Session>, now: int)
    ensures GoesOn(s, UserMutated(s, m, sessions, now))
  {
    hide Identity.Judge, Identity.Mutated, RevokedState;
    var outcome := Identity.Judge(Identity.State(s.users, sessions, 0), m, now);
    if outcome.Applied? { RevokingGoesOn(s, IssuedBy(m.user, outcome.orgs), Unbound); }
  }

  // ------------------------------------------------------------------ every step

  ghost predicate MachineInv(m: Machine, now: int) {
    && Inv(m.state, now)
    && (forall c | c in m.claims :: ClaimRefers(m.state, c))
    && (forall i | i in m.issues :: IssueRefers(m.state, i))
  }

  lemma {:induction false} EffectIsSound(m: Machine, e: Event)
    requires MachineInv(m, e.at)
    ensures Inv(Effect(m, e), e.at) && GoesOn(m.state, Effect(m, e))
  {
    hide Inv, GoesOn, ScreenCreated, PairingCreated, ReenrollmentRequested, EnrollmentRequested, ReenrollmentActivated,
         EnrollmentActivated, GrantCancelled, PairingClaimed, ProofIssued, ClaimFinished, IssueFinished, ProofFinished,
         CredentialRevoked, ScreenDeleted, UserMutated;
    var s := m.state;
    StaysGoesOn(s);
    match e.request
    case CreateScreen(org) => ScreenCreatedKeepsInv(s, org, e.at); ScreenCreatedGoesOn(s, org);
    case CreatePairing(org, code, expiresAt, actor) =>
      PairingCreatedKeepsInv(s, org, code, expiresAt, actor, e.at);
      PairingCreatedGoesOn(s, org, code, expiresAt, actor, e.at);
    case RequestReenrollment(org, screen, code, expiresAt, actor) =>
      ReenrollmentRequestedKeepsInv(s, org, screen, code, expiresAt, actor, e.at);
      ReenrollmentRequestedGoesOn(s, org, screen, code, expiresAt, actor, e.at);
    case RequestEnrollment(org, screen, codes, actor, keyed) =>
      EnrollmentRequestedKeepsInv(s, org, screen, codes, actor, keyed, e.at);
      EnrollmentRequestedGoesOn(s, org, screen, codes, actor, keyed, e.at);
    case ActivateReenrollment(org, screen, grant, attempt, actor) =>
      ReenrollmentActivatedKeepsInv(s, org, screen, grant, attempt, actor, e.at);
      ReenrollmentActivatedGoesOn(s, org, screen, grant, attempt, actor, e.at);
    case ActivateEnrollment(org, screen, grant, attempt, fingerprint, actor, keyed) =>
      EnrollmentActivatedKeepsInv(s, org, screen, grant, attempt, fingerprint, actor, keyed, e.at);
      EnrollmentActivatedGoesOn(s, org, screen, grant, attempt, fingerprint, actor, keyed, e.at);
    case CancelGrant(org, screen, grant, purpose, actor) =>
      RevokingKeepsInv(s, Only(grant), Unconsumed, e.at);
      GrantCancelledGoesOn(s, org, screen, grant, purpose, actor);
      CancellingIs(s, org, screen, grant, purpose, actor);
    case ClaimWithToken(code, installation, token) =>
      PairingClaimedKeepsInv(s, code, installation, token, e.at);
      PairingClaimedGoesOn(s, code, installation, token, e.at);
    case IssueProof(wanted) => ProofIssuedKeepsInv(s, wanted, e.at); ProofIssuedGoesOn(s, wanted, e.at);
    case BeginClaim(_, _, _, _, _, _) =>
    case FinishClaim(k, verified) =>
      if k < |m.claims| {
        assert m.claims[k] in m.claims;
        ClaimFinishedKeepsInv(s, m.claims[k], e.at);
        ClaimFinishedGoesOn(s, m.claims[k], e.at);
      }
    case BeginIssue(_) =>
    case FinishIssue(k) =>
      if k < |m.issues| {
        assert m.issues[k] in m.issues;
        IssueFinishedKeepsInv(s, m.issues[k], e.at);
        IssueFinishedGoesOn(s, m.issues[k], e.at);
      }
    case BeginProof(_) =>
    case FinishProof(k, verified) =>
      if k < |m.proofs| {
        ProofFinishedKeepsInv(s, m.proofs[k], e.at);
        ProofFinishedGoesOn(s, m.proofs[k], e.at);
      }
    case RevokeCredential(org, screen, actor) =>
      CredentialRevokedKeepsInv(s, org, screen, actor, e.at);
      CredentialRevokedGoesOn(s, org, screen, actor, e.at);
    case DeleteScreen(org, screen, actor) =>
      ScreenDeletedKeepsInv(s, org, screen, actor, e.at);
      ScreenDeletedGoesOn(s, org, screen, actor, e.at);
    case MutateUser(mutation, sessions) =>
      UserMutatedKeepsInv(s, mutation, sessions, e.at);
      UserMutatedGoesOn(s, mutation, sessions, e.at);
  }

  lemma {:induction false} CancellingIs(s: State, org: Id, screen: Id, grant: Id, purpose: Purpose, actor: Id)
    ensures var t := GrantCancelled(s, org, screen, grant, purpose, actor).0;
            t == s || t == RevokedState(s, Only(grant), Unconsumed)
  {
  }

  lemma {:induction false} ScreenCreatedGoesOn(s: State, org: Id)
    ensures GoesOn(s, ScreenCreated(s, org))
  {
  }

  lemma {:induction false} PairingCreatedGoesOn(s: State, org: Id, code: Id, expiresAt: int, actor: Id, now: int)
    ensures GoesOn(s, PairingCreated(s, org, code, expiresAt, actor, now).0)
  {
    hide IsAdministrator, CodeTaken, SameCodeExpired;
    forall i | 0 <= i < |s.grants| ensures GrantGoesOn(s.grants[i], ExpiredCode(s.grants, code, now)[i]) {
      if SameCodeExpired(s.grants[i], code, now) { ExpiredCodeIsPending(s.grants[i], code, now); }
    }
  }

  lemma {:induction false} GrantCancelledGoesOn(s: State, org: Id, screen: Id, grant: Id, purpose: Purpose, actor: Id)
    ensures GoesOn(s, GrantCancelled(s, org, screen, grant, purpose, actor).0)
  {
    hide GoesOn, RevokedState, GrantCancelled;
    StaysGoesOn(s);
    RevokingGoesOn(s, Only(grant), Unconsumed);
    CancellingIs(s, org, screen, grant, purpose, actor);
  }

  lemma {:induction false} PairingClaimedGoesOn(s: State, code: Id, installation: Id, token: Id, now: int)
    ensures GoesOn(s, PairingClaimed(s, code, installation, token, now).0)
  {
  }

  lemma {:induction false} ProofIssuedGoesOn(s: State, r: ProofRequest, now: int)
    ensures GoesOn(s, ProofIssued(s, r, now).0)
  {
    hide FindCode, IssuerCurrent, HasKey, HashSeen, OutstandingAttempts;
  }

  lemma {:induction false} IssueFinishedGoesOn(s: State, i: Issue, now: int)
    requires IssueRefers(s, i)
    ensures GoesOn(s, IssueFinished(s, i, now).0)
  {
    hide LiveChallenges, ChallengeHashSeen, DroppedNow;
  }

  lemma {:induction false} ProofFinishedGoesOn(s: State, p: Proof, now: int)
    ensures GoesOn(s, ProofFinished(s, p, now).0)
  {
    hide IsActive;
  }

  lemma {:induction false} ExpiredCodeIsPending(g: Grant, code: Id, now: int)
    requires SameCodeExpired(g, code, now)
    ensures g.status.Pending?
  {
  }

  lemma {:induction false} StepKeepsMachineInv(m: Machine, e: Event)
    requires MachineInv(m, e.at)
    ensures MachineInv(Step(m, e), e.at) && GoesOn(m.state, Step(m, e).state)
  {
    hide Inv, Effect, GrantGoesOn, CredentialDetaches, ChallengeCloses, ScreenAdvances, IsActive, Matches;
    EffectIsSound(m, e);
    var t := Step(m, e);
    assert forall i | 0 <= i < |m.state.attempts| :: AttemptGoesOn(m.state.attempts[i], t.state.attempts[i]);
    forall c | c in t.claims ensures ClaimRefers(t.state, c) {
      assert c in m.claims ==> ClaimRefers(m.state, c);
    }
  }

  // ------------------------------------------------------------------ every reachable machine

  predicate Fresh(m: Machine) {
    && m.claims == [] && m.issues == [] && m.proofs == []
    && m.state.credentials == [] && m.state.challenges == [] && m.state.grants == [] && m.state.attempts == []
       && m.state.usedKeys == {}
    && forall i | 0 <= i < |m.state.screens| :: m.state.screens[i].origin.None?
  }

  lemma {:induction false} FreshIsSound(m: Machine, now: int)
    requires Fresh(m) && UniqueRows(m.state.users)
    ensures MachineInv(m, now)
  {
    var s := m.state;
    forall g ensures |ProvedAttempts(s.attempts, g)| <= LIMIT { assert ProvedAttempts(s.attempts, g) == {}; }
    forall g, key ensures |OutstandingAttempts(s.attempts, g, key, now)| <= LIMIT {
      assert OutstandingAttempts(s.attempts, g, key, now) == {};
    }
    forall c, activity ensures |LiveChallenges(s.challenges, c, activity, now)| <= LIMIT {
      assert LiveChallenges(s.challenges, c, activity, now) == {};
    }
  }

  lemma {:induction false} MachineTimePasses(m: Machine, now: int, later: int)
    requires MachineInv(m, now) && now <= later
    ensures MachineInv(m, later)
  {
    hide Inv;
    TimePasses(m.state, now, later);
  }

  lemma {:induction false} ReachableIsSound(m: Machine, from: int, es: seq<Event>, i: nat)
    requires MachineInv(m, from) && Clocked(from, es) && i <= |es|
    ensures MachineInv(At(m, es, i), ClockAt(from, es, i))
    ensures i < |es| ==> MachineInv(At(m, es, i), es[i].at)
  {
    hide MachineInv, Step;
    if i > 0 {
      ReachableIsSound(m, from, es, i - 1);
      StepKeepsMachineInv(At(m, es, i - 1), es[i - 1]);
    }
    if i < |es| { MachineTimePasses(At(m, es, i), ClockAt(from, es, i), es[i].at); }
  }

  lemma {:induction false} NothingGoesBack(m: Machine, from: int, es: seq<Event>, i: nat, j: nat)
    requires MachineInv(m, from) && Clocked(from, es) && i <= j <= |es|
    ensures GoesOn(At(m, es, i).state, At(m, es, j).state)
    decreases j
  {
    hide MachineInv, Step, GoesOn;
    if i == j {
      StaysGoesOn(At(m, es, i).state);
    } else {
      NothingGoesBack(m, from, es, i, j - 1);
      ReachableIsSound(m, from, es, j - 1);
      StepKeepsMachineInv(At(m, es, j - 1), es[j - 1]);
      GoingOnIsTransitive(At(m, es, i).state, At(m, es, j - 1).state, At(m, es, j).state);
    }
  }
}
