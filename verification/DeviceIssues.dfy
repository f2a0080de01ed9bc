/** What becomes of a challenge whose issue was suspended after its credential had been authenticated. */
module DeviceIssues {
  import opened Common
  import opened Devices
  import opened DeviceInvariants
  import opened DeviceSteps
  import opened DeviceRuns
  import opened DeviceSafety
  import Identity
  import opened IdentityEpochs

  /** Attached and unrevoked, on a screen that exists. */
  predicate IsOn(s: State, c: Id) {
    && c < |s.credentials|
    && var k := s.credentials[c]; !k.detached && k.revokedAt.None? && HasScreen(s.screens, k.org, k.screen)
  }

  /**
   A revocation, a re-enrollment request or a decommissioning of the credential's screen takes effect at
   this event.
   */
  predicate Ends(m: Machine, e: Event, c: Id)
    requires c < |m.state.credentials|
  {
    var s, r, screen := m.state, e.request, m.state.credentials[c].screen;
    || (r.RevokeCredential? && r.screen == screen
        && CredentialRevoked(s, r.org, r.screen, r.actor, e.at).1.RevokedCredential?)
    || (r.RequestReenrollment? && r.screen == screen
        && ReenrollmentRequested(s, r.org, r.screen, r.code, r.expiresAt, r.actor, e.at).1.Made?)
    || (r.DeleteScreen? && r.screen == screen && ScreenDeleted(s, r.org, r.screen, r.actor, e.at).1)
  }

  /** The credential and the existence of its screen are untouched. */
  predicate SameCredential(s: State, t: State, c: Id)
    requires c < |s.credentials|
  {
    && c < |t.credentials| && t.credentials[c] == s.credentials[c]
    && var x := s.credentials[c].screen;
       x < |s.screens| ==>
         x < |t.screens| && t.screens[x].deleted == s.screens[x].deleted && t.screens[x].org == s.screens[x].org
  }

  lemma {:induction false} RevokingIsSame(s: State, sel: Selector, cancel: Cancel, c: Id)
    requires c < |s.credentials|
    ensures SameCredential(s, RevokedState(s, sel, cancel), c)
  {
  }

  lemma {:induction false} PruningIsSame(s: State, org: Id, now: int, keep: Option<Id>, c: Id)
    requires c < |s.credentials|
    ensures SameCredential(s, PrunedState(s, org, now, keep), c)
  {
  }

  lemma {:induction false} AttachingIsSame(s: State, screen: Id, grant: Id, attempt: Id, c: Id)
    requires c < |s.credentials| && screen < |s.screens| && grant < |s.grants| && attempt < |s.attempts|
    ensures SameCredential(s, Attached(s, screen, grant, attempt), c)
  {
  }

  lemma {:induction false} ActivationIsSame(
      s: State, org: Id, screen: Id, grant: Id, attempt: Id, fingerprint: Id, actor: Id, k: Keyed, now: int, c: Id)
    requires Inv(s, now) && c < |s.credentials|
    ensures SameCredential(s, EnrollmentActivated(s, org, screen, grant, attempt, fingerprint, actor, k, now).0, c)
  {
    hide Inv, RevokedState, PrunedState, Attached, IsAdministrator, IssuerCurrent, HasKey, FindRecord, RecordRefusal,
         HasAnyCredential;
    var pruned := PrunedState(s, org, now, Some(k.keyHash));
    PruningIsSame(s, org, now, Some(k.keyHash), c);
    var (t, r) := EnrollmentActivated(s, org, screen, grant, attempt, fingerprint, actor, k, now);
    if r.Active? && !r.replayed {
      PruningKeepsLive(s, org, now, Some(k.keyHash), grant, attempt);
      AttachingIsSame(pruned, screen, grant, attempt, c);
      RevokingIsSame(Attached(pruned, screen, grant, attempt), TargetingIn(org, screen), Unbound, c);
    }
  }

  /** Requests of other kinds leave the credential alone. */
  lemma {:induction false} OtherKindsAreSame(m: Machine, e: Event, c: Id)
    requires MachineInv(m, e.at) && c < |m.state.credentials|
    requires !e.request.RevokeCredential? && !e.request.RequestReenrollment? && !e.request.DeleteScreen?
    ensures SameCredential(m.state, Effect(m, e), c)
  {
    hide Inv, RevokedState, PrunedState, Attached, IsAdministrator, IssuerOf, IssuerCurrent, CodeTaken, HasKey,
         FindRecord, RecordRefusal, HasAnyCredential, FirstFreeCode, LiveChallenges, OutstandingAttempts,
         ProvedAttempts, Accepts, KeptChallenges, ExpiredCode, ChallengeHashSeen, HashSeen, FindOpenCode, FindCode,
         Identity.Judge, Identity.Mutated, Unexpired, EnrollmentActivated;
    var s, now := m.state, e.at;
    match e.request
    case RequestEnrollment(org, screen, _, _, keyed) =>
      PruningIsSame(s, org, now, Some(keyed.keyHash), c);
      RevokingIsSame(PrunedState(s, org, now, Some(keyed.keyHash)), EnrollingIn(org, screen), Unbound, c);
    case ActivateReenrollment(org, screen, grant, attempt, actor) =>
      if ReenrollmentActivated(s, org, screen, grant, attempt, actor, now).0 != s {
        AttachingIsSame(s, screen, grant, attempt, c);
        RevokingIsSame(Attached(s, screen, grant, attempt), Targeting(screen), Nothing, c);
      }
    case ActivateEnrollment(org, screen, grant, attempt, fingerprint, actor, keyed) =>
      ActivationIsSame(s, org, screen, grant, attempt, fingerprint, actor, keyed, now, c);
    case CancelGrant(org, screen, grant, purpose, actor) =>
      RevokingIsSame(s, Only(grant), Unconsumed, c);
      CancellingIs(s, org, screen, grant, purpose, actor);
    case MutateUser(mutation, sessions) =>
      var outcome := Identity.Judge(Identity.State(s.users, sessions, 0), mutation, now);
      if outcome.Applied? { RevokingIsSame(s, IssuedBy(mutation.user, outcome.orgs), Unbound, c); }
    case _ =>
  }

  lemma {:induction false} DetachingElsewhereIsSame(s: State, p: Picked, now: int, c: Id)
    requires c < |s.credentials| && !Picks(p, c, s.credentials[c])
    ensures SameCredential(s, DetachedState(s, p, now), c)
  {
  }

  lemma {:induction false} RevocationElsewhereIsSame(m: Machine, e: Event, c: Id)
    requires MachineInv(m, e.at) && e.request.RevokeCredential? && IsOn(m.state, c) && !Ends(m, e, c)
    ensures SameCredential(m.state, Effect(m, e), c)
  {
    hide RevokedState, PrunedState, DetachedState, IsAdministrator, IssuerOf, CodeTaken, HasPending, GrantsSound,
         DevicesSound, GrantsBehind, OriginsClaimed, IssuersCurrent;
    var s, r, now := m.state, e.request, e.at;
    var org, screen := r.org, r.screen;
    var k := CredentialToRevoke(s.credentials, org, screen);
    if HasScreen(s.screens, org, screen) {
      RevokingIsSame(s, TargetingIn(org, screen), Unconsumed, c);
      RevokingFrame(s, TargetingIn(org, screen), Unconsumed, 0, now);
      if k.Some? && screen != s.credentials[c].screen {
        DetachingElsewhereIsSame(s, Single(k.value), now, c);
        DetachingFrame(s, Single(k.value), now);
        RevokingIsSame(Advanced(DetachedState(s, Single(k.value), now), screen), Targeting(screen), Unconsumed, c);
      }
    }
  }

  lemma {:induction false} ReenrollmentElsewhereIsSame(m: Machine, e: Event, c: Id)
    requires MachineInv(m, e.at) && e.request.RequestReenrollment? && IsOn(m.state, c) && !Ends(m, e, c)
    ensures SameCredential(m.state, Effect(m, e), c)
  {
    hide RevokedState, PrunedState, DetachedState, IsAdministrator, IssuerOf, CodeTaken, HasPending, GrantsSound,
         DevicesSound, GrantsBehind, OriginsClaimed, IssuersCurrent;
    var s, r, now := m.state, e.request, e.at;
    var org, screen := r.org, r.screen;
    var pruned := PrunedState(s, org, now, None);
    var revoked := RevokedState(pruned, Targeting(screen), Unbound);
    PruningIsSame(s, org, now, None, c);
    PruningRetires(s, org, now, None);
    RevokingIsSame(pruned, Targeting(screen), Unbound, c);
    RevokingRetires(pruned, Targeting(screen), Unbound);
    if screen != s.credentials[c].screen {
      DetachingElsewhereIsSame(revoked, AttachedTo(org, screen), now, c);
      DetachingFrame(revoked, AttachedTo(org, screen), now);
    }
  }

  lemma {:induction false} DeletionElsewhereIsSame(m: Machine, e: Event, c: Id)
    requires MachineInv(m, e.at) && e.request.DeleteScreen? && IsOn(m.state, c) && !Ends(m, e, c)
    ensures SameCredential(m.state, Effect(m, e), c)
  {
    hide RevokedState, PrunedState, DetachedState, IsAdministrator, IssuerOf, CodeTaken, HasPending, GrantsSound,
         DevicesSound, GrantsBehind, OriginsClaimed, IssuersCurrent;
    var s, r, now := m.state, e.request, e.at;
    var org, screen := r.org, r.screen;
    if screen != s.credentials[c].screen {
      var detached := DetachedState(s, EverOn(org, screen), now);
      DetachingElsewhereIsSame(s, EverOn(org, screen), now, c);
      DetachingFrame(s, EverOn(org, screen), now);
      RevokingIsSame(detached, Targeting(screen), Nothing, c);
      RevokingRetires(detached, Targeting(screen), Nothing);
    }
  }

  /** Revocations, re-enrollment requests and decommissionings that do not concern the credential leave it alone. */
  lemma {:induction false} NotEndedIsSame(m: Machine, e: Event, c: Id)
    requires MachineInv(m, e.at) && IsOn(m.state, c) && !Ends(m, e, c)
    ensures SameCredential(m.state, Effect(m, e), c)
  {
    hide MachineInv, IsOn, Ends, Effect, SameCredential;
    OnIsThere(m.state, c);
    match e.request
    case RevokeCredential(_, _, _) => RevocationElsewhereIsSame(m, e, c);
    case RequestReenrollment(_, _, _, _, _) => ReenrollmentElsewhereIsSame(m, e, c);
    case DeleteScreen(_, _, _) => DeletionElsewhereIsSame(m, e, c);
    case _ => OtherKindsAreSame(m, e, c);
  }

  lemma {:induction false} OnIsThere(s: State, c: Id)
    requires IsOn(s, c)
    ensures c < |s.credentials|
  {
  }

  /** A credential that is on stays on through an event exactly when the event does not end it. */
  lemma {:induction false} StepEnds(m: Machine, e: Event, c: Id)
    requires MachineInv(m, e.at) && IsOn(m.state, c)
    ensures IsOn(Step(m, e).state, c) <==> !Ends(m, e, c)
  {
    hide Inv, Effect, GoesOn, CredentialRevoked, ReenrollmentRequested, ScreenDeleted, NoneAttached;
    StepKeepsMachineInv(m, e);
    if Ends(m, e, c) {
      EndedIsDetached(m, e, c);
    } else {
      NotEndedIsSame(m, e, c);
    }
  }

  lemma {:induction false} EndedIsDetached(m: Machine, e: Event, c: Id)
    requires MachineInv(m, e.at) && IsOn(m.state, c) && Ends(m, e, c)
    ensures !IsOn(Step(m, e).state, c)
  {
    hide Inv, CredentialRevoked, ReenrollmentRequested, ScreenDeleted, GrantGoesOn, AttemptGoesOn, ChallengeCloses,
         ScreenAdvances;
    StepKeepsMachineInv(m, e);
    RevocationDetaches(m.state, e, e.at);
    assert CredentialDetaches(m.state.credentials[c], Step(m, e).state.credentials[c]);
  }

  /** Over a run, a credential stays on exactly while no event ends it. */
  lemma {:induction false} OnUntilEnded(m: Machine, from: int, es: seq<Event>, i: nat, k: nat, c: Id)
    requires MachineInv(m, from) && Clocked(from, es) && i <= k <= |es| && IsOn(At(m, es, i).state, c)
    ensures forall j | i <= j <= k :: c < |At(m, es, j).state.credentials|
    ensures IsOn(At(m, es, k).state, c) <==> forall j | i <= j < k :: !Ends(At(m, es, j), es[j], c)
    decreases k
  {
    hide MachineInv, Step, Ends, IsOn;
    forall j | i <= j <= k ensures c < |At(m, es, j).state.credentials| { CredentialStays(m, from, es, i, j, c); }
    if i < k {
      OnUntilEnded(m, from, es, i, k - 1, c);
      var before := At(m, es, k - 1);
      ReachableIsSound(m, from, es, k - 1);
      if IsOn(before.state, c) {
        StepEnds(before, es[k - 1], c);
      } else {
        OffStaysOff(m, from, es, k - 1, k, c);
      }
    }
  }

  lemma {:induction false} CredentialStays(m: Machine, from: int, es: seq<Event>, i: nat, j: nat, c: Id)
    requires MachineInv(m, from) && Clocked(from, es) && i <= j <= |es| && IsOn(At(m, es, i).state, c)
    ensures c < |At(m, es, j).state.credentials|
    ensures At(m, es, j).state.credentials[c].expiresAt == At(m, es, i).state.credentials[c].expiresAt
  {
    hide MachineInv, At;
    NothingGoesBack(m, from, es, i, j);
    assert CredentialDetaches(At(m, es, i).state.credentials[c], At(m, es, j).state.credentials[c]);
  }

  lemma {:induction false} OffStaysOff(m: Machine, from: int, es: seq<Event>, i: nat, j: nat, c: Id)
    requires MachineInv(m, from) && Clocked(from, es) && i <= j <= |es|
    requires c < |At(m, es, i).state.credentials| && !IsOn(At(m, es, i).state, c)
    ensures !IsOn(At(m, es, j).state, c)
  {
    hide At, GrantsSound, DevicesSound, GrantsBehind, OriginsClaimed, IssuersCurrent;
    ReachableIsSound(m, from, es, i);
    NothingGoesBack(m, from, es, i, j);
    var s, t := At(m, es, i).state, At(m, es, j).state;
    assert CredentialDetaches(s.credentials[c], t.credentials[c]);
    assert ScreenAdvances(s.screens[s.credentials[c].screen], t.screens[s.credentials[c].screen]);
  }

  lemma {:induction false} IssuesStay(m: Machine, es: seq<Event>, i: nat, j: nat, k: nat)
    requires i <= j <= |es| && k < |At(m, es, i).issues|
    ensures k < |At(m, es, j).issues| && At(m, es, j).issues[k] == At(m, es, i).issues[k]
    decreases j
  {
    hide Effect, ClaimBegun, IssueBegun, ProofBegun;
    if i < j { IssuesStay(m, es, i, j - 1, k); }
  }

  /**
   When a challenge is issued soundly. An issue that began at event `i` for credential `c` and is
   completed by event `k` issues a challenge of `c`; and `c` can authenticate at that moment exactly
   when no revocation, re-enrollment request or decommissioning of its screen took effect strictly in
   between, and it has not expired by then.
   */
  lemma {:induction false} IssueIsSoundExactly(m: Machine, from: int, es: seq<Event>, i: nat, k: nat, c: Id)
    requires MachineInv(m, from) && Clocked(from, es) && i < k < |es|
    requires es[i].request.BeginIssue?
             && IssueBegun(At(m, es, i).state, es[i].request.challenge, es[i].at).credential == Some(c)
    requires es[k].request.FinishIssue? && es[k].request.issue == |At(m, es, i).issues|
    requires |At(m, es, k + 1).state.challenges| > |At(m, es, k).state.challenges|
    ensures forall j | i <= j <= k :: c < |At(m, es, j).state.credentials|
    ensures At(m, es, k + 1).state.challenges[|At(m, es, k).state.challenges|].credential == c
    ensures IsActive(At(m, es, k).state, c, es[k].at) <==>
              && (forall j | i < j < k :: !Ends(At(m, es, j), es[j], c))
              && Unexpired(At(m, es, i).state.credentials[c].expiresAt, es[k].at)
  {
    hide MachineInv, Step, Ends, IsOn, IssueBegun, Unexpired;
    var began := At(m, es, i);
    BegunIssueIsKept(began, es[i], c);
    assert At(m, es, i + 1) == Step(began, es[i]);
    IssuesStay(m, es, i + 1, k, |began.issues|);
    OnUntilEnded(m, from, es, i, k, c);
    CredentialStays(m, from, es, i, k, c);
    OnUntilEnded(m, from, es, i + 1, k, c);
    ActiveMeansOn(At(m, es, k).state, c, es[k].at);
    assert At(m, es, k + 1) == Step(At(m, es, k), es[k]);
    ChallengeIsOf(At(m, es, k), es[k], c);
  }

  lemma {:induction false} BegunIssueIsKept(m: Machine, e: Event, c: Id)
    requires e.request.BeginIssue? && IssueBegun(m.state, e.request.challenge, e.at).credential == Some(c)
    ensures IsOn(m.state, c) && IsOn(Step(m, e).state, c)
    ensures |Step(m, e).issues| == |m.issues| + 1 && Step(m, e).issues[|m.issues|].credential == Some(c)
  {
    hide FindKeyed;
  }

  lemma {:induction false} ActiveMeansOn(s: State, c: Id, now: int)
    ensures IsActive(s, c, now) <==> IsOn(s, c) && Unexpired(s.credentials[c].expiresAt, now)
  {
  }

  lemma {:induction false} ChallengeIsOf(m: Machine, e: Event, c: Id)
    requires e.request.FinishIssue? && e.request.issue < |m.issues| && m.issues[e.request.issue].credential == Some(c)
    requires |Step(m, e).state.challenges| > |m.state.challenges|
    ensures Step(m, e).state.challenges[|m.state.challenges|].credential == c
  {
    hide LiveChallenges, ChallengeHashSeen, KeptChallenges;
  }

  // ------------------------------------------------------------------ a challenge issued too late

  const OWNER := Identity.User(1, 7, 1, Identity.Owner, None, 100, 0, 0, None)
  const EMPTY := Machine(State([OWNER], [], [], [], [], [], {}, []), [], [], [])
  const GRANT := Grant(7, 50, 1000, Pending, None, None, false)
  const ATTEMPT := Attempt(7, 0, 9, None, 60, 61, 30000, None, false, false, false, false, None, false)
  const WANTED := ChallengeRequest(0, 9, 77, Heartbeat, 8, 40)
  const LATE := Challenge(7, 0, 77, Heartbeat, 8, 40, None, false)

  /** A device pairs, asks for a challenge, is revoked while the request is suspended, and gets the challenge. */
  const LATE_RUN := [
    Event(1, CreatePairing(7, 50, 1000, 1)),
    Event(2, IssueProof(ProofRequest(50, 9, None, 60, 61, 30000))),
    Event(3, BeginClaim(50, 0, 60, 61, 9, 3)),
    Event(4, FinishClaim(0, true)),
    Event(5, BeginIssue(WANTED)),
    Event(6, RevokeCredential(7, 0, 1)),
    Event(7, FinishIssue(0))]

  const OPENED := EMPTY.(state := EMPTY.state.(grants := [GRANT]))
  const PROVING := OPENED.(state := OPENED.state.(attempts := [ATTEMPT]))
  const CLAIMING := PROVING.(claims := [Claim(0, 0, 3)])
  const PAIRED := CLAIMING.(state := State(
    [OWNER], [Screen(7, 0, Some(3), None, Some(0), false)], [Credential(7, 0, 9, None, false, None)], [],
    [GRANT.(status := Claimed, screen := Some(0))], [ATTEMPT.(consumed := true, bound := Some(0))], {9}, []))
  const ISSUING := PAIRED.(issues := [Issue(Some(0), WANTED)])
  const REVOKED := ISSUING.(state := PAIRED.state.(
    screens := [Screen(7, 1, Some(3), None, Some(0), false)],
    credentials := [Credential(7, 0, 9, None, true, Some(6))]))
  const ISSUED := REVOKED.(state := REVOKED.state.(challenges := [LATE]))

  lemma {:induction false} OwnerIsAdministrator()
    ensures IsAdministrator([OWNER], 7, 1)
  {
  }

  lemma {:induction false} RunOpens()
    ensures Step(EMPTY, LATE_RUN[0]) == OPENED
  {
    OwnerIsAdministrator();
    assert ExpiredCode([], 50, 1) == [];
  }

  lemma {:induction false} RunProves()
    ensures Step(OPENED, LATE_RUN[1]) == PROVING
  {
    hide IssuerCurrent;
    assert CodeInUse(GRANT, 50, 2);
    assert FindCode([GRANT], 50, 2) == Some(0);
    assert OutstandingAttempts([], 0, 9, 2) == {};
  }

  lemma {:induction false} RunClaims()
    ensures Step(PROVING, LATE_RUN[2]) == CLAIMING
  {
  }

  lemma {:induction false} RunPairs()
    ensures Step(CLAIMING, LATE_RUN[3]) == PAIRED
  {
    hide IssuerCurrent, ProvedAttempts;
  }

  lemma {:induction false} RunIssues()
    ensures Step(PAIRED, LATE_RUN[4]) == ISSUING
  {
    assert FindKeyed(PAIRED.state.credentials, 0, 9) == Some(0);
  }

  lemma {:induction false} RunRevokes()
    ensures Step(ISSUING, LATE_RUN[5]) == REVOKED
  {
    OwnerIsAdministrator();
    var s := ISSUING.state;
    assert OfScreen(s.credentials[0], 7, 0);
    assert CredentialToRevoke(s.credentials, 7, 0) == Some(0);
    var detached := DetachedState(s, Single(0), 6);
    assert detached.credentials == [Credential(7, 0, 9, None, true, Some(6))];
    assert detached.challenges == [];
    var moved := Advanced(detached, 0);
    var t := RevokedState(moved, Targeting(0), Unconsumed);
    assert t.grants == s.grants && t.attempts == s.attempts;
    assert moved.screens == [Screen(7, 1, Some(3), None, Some(0), false)];
  }

  lemma {:induction false} RunFinishes()
    ensures Step(REVOKED, LATE_RUN[6]) == ISSUED
  {
    var s := REVOKED.state;
    assert LiveChallenges(s.challenges, 0, Heartbeat, 7) == {};
    assert KeptChallenges(s.challenges, 7) == [];
    assert IssueFinished(s, REVOKED.issues[0], 7).0.challenges == [LATE];
  }

  /** In a run from an empty store a challenge is issued for a credential that was revoked during the request. */
  lemma {:induction false} LateChallengeExample()
    ensures Fresh(EMPTY) && Clocked(0, LATE_RUN)
    ensures var before, after := At(EMPTY, LATE_RUN, 6).state, At(EMPTY, LATE_RUN, 7).state;
            && !IsActive(before, 0, 7) && before.challenges == []
            && after.challenges == [LATE] && after.credentials[LATE.credential].revokedAt == Some(6)
  {
    hide Step;
    RunOpens();
    RunProves();
    RunClaims();
    RunPairs();
    RunIssues();
    RunRevokes();
    RunFinishes();
    assert At(EMPTY, LATE_RUN, 1) == OPENED;
    assert At(EMPTY, LATE_RUN, 2) == PROVING;
    assert At(EMPTY, LATE_RUN, 3) == CLAIMING;
    assert At(EMPTY, LATE_RUN, 4) == PAIRED;
    assert At(EMPTY, LATE_RUN, 5) == ISSUING;
    assert At(EMPTY, LATE_RUN, 6) == REVOKED;
    assert At(EMPTY, LATE_RUN, 7) == ISSUED;
  }
}
