/** When a device is let in: a proof with an issued challenge, over any run and any interleaving. */
module DeviceAuthentication {
  import opened Common
  import opened Devices
  import opened DeviceInvariants
  import opened DeviceSteps
  import opened DeviceRuns
  import opened DeviceSafety
  import opened DeviceIssues
  import opened DeviceEffects
  import opened DeviceDecisions
  import opened DeviceProofs
  import Identity

  // ------------------------------------------------------------------ what leaves a challenge open

  /** The challenge is of the credential, and can be answered at the instant. */
  ghost predicate OpenFor(s: State, x: Id, c: Id, now: int) {
    && x < |s.challenges| && s.challenges[x].credential == c
    && !s.challenges[x].pruned && s.challenges[x].consumedAt == None && now < s.challenges[x].expiresAt
  }

  ghost predicate SameChallenge(s: State, t: State, x: Id) {
    x < |s.challenges| && x < |t.challenges| && t.challenges[x] == s.challenges[x]
  }

  lemma {:induction false} SpentElsewhere(s: State, t: State, gone: set<nat>, x: Id, c: Id, now: int)
    requires OpenFor(s, x, c, now) && c < |s.credentials| && c < |t.credentials|
    requires ChallengesSpent(s.challenges, t.challenges, gone, now)
    requires CredentialsDetached(s.credentials, t.credentials, gone, now) && !t.credentials[c].detached
    ensures SameChallenge(s, t, x)
  {
  }

  /** Requests that detach other credentials leave the challenge open. */
  lemma {:induction false} DetachingElsewhereKeeps(m: Machine, e: Event, x: Id, c: Id)
    requires MachineInv(m, e.at) && IsOn(m.state, c) && !Ends(m, e, c) && OpenFor(m.state, x, c, e.at)
    requires e.request.RevokeCredential? || e.request.RequestReenrollment? || e.request.DeleteScreen?
    ensures SameChallenge(m.state, Effect(m, e), x)
  {
    hide Inv, CredentialRevoked, ReenrollmentRequested, ScreenDeleted, Administers, StoredScreen, CodeIsLive,
         GrantsRevoked, AttemptsCancelled, CredentialsDetached, ChallengesSpent, AttachedOn, EverAttached,
         PendingGrants, FirstOn, GrantFor, MovedOn, FirstExpire, FirstRemoved, FirstForgotten, OpenFor, SameChallenge,
         Ends;
    NotEndedIsSame(m, e, c);
    var s, t, r, now := m.state, Effect(m, e), e.request, e.at;
    StillTheSame(s, x, c, now);
    match r
    case RevokeCredential(org, screen, actor) =>
      RevocationDecides(s, org, screen, actor, now);
      if t != s {
        var gone := if AttachedOn(s.credentials, screen) != {} then AttachedOn(s.credentials, screen) else {};
        assert ClosesAndMovesOn(s, t, screen, gone, now);
        SpentElsewhere(s, t, gone, x, c, now);
      }
    case RequestReenrollment(org, screen, code, expiresAt, actor) =>
      ReenrollmentRequestDecides(s, org, screen, code, expiresAt, actor, now);
      if t != s {
        var p :| Pruned(s, p, org, now, None) && Reenrolling(p, t, org, screen, code, expiresAt, actor, now);
        OpenInBoth(s, p, x, c, now);
        SpentElsewhere(p, t, AttachedOn(p.credentials, screen), x, c, now);
        SameInBoth(s, p, t, x);
      }
    case DeleteScreen(org, screen, actor) =>
      DeletionDecides(s, org, screen, actor, now);
      if t != s { SpentElsewhere(s, t, EverAttached(s.credentials, screen), x, c, now); }
  }

  lemma {:induction false} StillTheSame(s: State, x: Id, c: Id, now: int)
    requires OpenFor(s, x, c, now)
    ensures SameChallenge(s, s, x)
  {
  }

  lemma {:induction false} OpenInBoth(s: State, p: State, x: Id, c: Id, now: int)
    requires OpenFor(s, x, c, now) && p.challenges == s.challenges
    ensures OpenFor(p, x, c, now)
  {
  }

  lemma {:induction false} SameInBoth(s: State, p: State, t: State, x: Id)
    requires p.challenges == s.challenges && SameChallenge(p, t, x)
    ensures SameChallenge(s, t, x)
  {
  }

  /** Requests of other kinds leave it open, unless they authenticate with it. */
  lemma {:induction false} OtherKindsKeep(m: Machine, e: Event, x: Id, c: Id)
    requires MachineInv(m, e.at) && OpenFor(m.state, x, c, e.at) && !Authenticates(m, e, x)
    requires !e.request.RevokeCredential? && !e.request.RequestReenrollment? && !e.request.DeleteScreen?
    ensures SameChallenge(m.state, Effect(m, e), x)
  {
    hide Inv, RevokedState, PrunedState, Attached, IsAdministrator, IssuerOf, IssuerCurrent, CodeTaken, Devices.HasKey,
         FindRecord, RecordRefusal, HasAnyCredential, FirstFreeCode, LiveChallenges, OutstandingAttempts,
         ProvedAttempts, Accepts, ExpiredCode, ChallengeHashSeen, HashSeen, FindOpenCode, FindCode,
         Identity.Judge, Identity.Mutated, Unexpired;
    var s, now := m.state, e.at;
    match e.request
    case RequestEnrollment(org, screen, _, _, keyed) =>
      PrunedChallenges(s, org, now, Some(keyed.keyHash));
      RevokedChallenges(PrunedState(s, org, now, Some(keyed.keyHash)), EnrollingIn(org, screen), Unbound);
    case ActivateReenrollment(org, screen, grant, attempt, actor) =>
      ActivatedChallenges(s, org, screen, grant, attempt, actor, now);
    case ActivateEnrollment(org, screen, grant, attempt, fingerprint, actor, keyed) =>
      EnrolledChallenges(s, org, screen, grant, attempt, fingerprint, actor, keyed, now);
    case CancelGrant(org, screen, grant, purpose, actor) =>
      RevokedChallenges(s, Only(grant), Unconsumed);
      CancellingIs(s, org, screen, grant, purpose, actor);
    case MutateUser(mutation, sessions) =>
      var outcome := Identity.Judge(Identity.State(s.users, sessions, 0), mutation, now);
      if outcome.Applied? { RevokedChallenges(s, IssuedBy(mutation.user, outcome.orgs), Unbound); }
    case FinishIssue(k) => assert !Old(s.challenges[x], now);
    case FinishProof(k, verified) => if k < |m.proofs| && verified { OtherProofKeeps(s, m.proofs[k], x, now); }
    case _ =>
  }

  lemma {:induction false} OtherProofKeeps(s: State, p: Proof, x: Id, now: int)
    requires x < |s.challenges| && (p.input.challenge != x || !Accepts(s, p, now))
    ensures SameChallenge(s, ProofFinished(s, p, now).0, x)
  {
    hide IsActive;
  }

  lemma {:induction false} PrunedChallenges(s: State, org: Id, now: int, keep: Option<Id>)
    ensures var t := PrunedState(s, org, now, keep); t.challenges == s.challenges && t.screens == s.screens
  {
  }

  lemma {:induction false} RevokedChallenges(s: State, sel: Selector, cancel: Cancel)
    ensures var t := RevokedState(s, sel, cancel); t.challenges == s.challenges && t.screens == s.screens
  {
  }

  lemma {:induction false} ActivatedChallenges(
      s: State, org: Id, screen: Id, grant: Id, attempt: Id, actor: Id, now: int)
    requires Inv(s, now)
    ensures ReenrollmentActivated(s, org, screen, grant, attempt, actor, now).0.challenges == s.challenges
  {
    hide Inv, ReenrollmentActivated, Administers, ForReenrollment, StandsBehind, BoundBefore, StillOpen, KeySpent;
    ReenrollmentDecides(s, org, screen, grant, attempt, actor, now);
  }

  lemma {:induction false} EnrolledChallenges(s: State, org: Id, screen: Id, grant: Id, attempt: Id, fingerprint: Id,
      actor: Id, k: Keyed, now: int)
    requires Inv(s, now)
    ensures EnrollmentActivated(s, org, screen, grant, attempt, fingerprint, actor, k, now).0.challenges == s.challenges
  {
    hide Inv, EnrollmentActivated, Administers, Recorded, CanBind, NeverPaired, FirstExpire, FirstRemoved,
         FirstForgotten;
    EnrollmentDecides(s, org, screen, grant, attempt, fingerprint, actor, k, now);
  }

  /** Nothing but the end of its credential, or an authentication, closes a challenge before it expires. */
  lemma {:induction false} ChallengeStays(m: Machine, e: Event, x: Id, c: Id)
    requires MachineInv(m, e.at) && IsOn(m.state, c) && !Ends(m, e, c)
    requires OpenFor(m.state, x, c, e.at) && !Authenticates(m, e, x)
    ensures SameChallenge(m.state, Step(m, e).state, x)
  {
    hide MachineInv, IsOn, Ends, OpenFor, Authenticates, SameChallenge, Effect;
    if e.request.RevokeCredential? || e.request.RequestReenrollment? || e.request.DeleteScreen? {
      DetachingElsewhereKeeps(m, e, x, c);
    } else {
      OtherKindsKeep(m, e, x, c);
    }
  }

  // ------------------------------------------------------------------ what leaves a generation alone

  /** The generation of the screen the credential is on. */
  ghost predicate SameGeneration(s: State, t: State, c: Id) {
    && c < |s.credentials| && s.credentials[c].screen < |s.screens|
    && var x := s.credentials[c].screen; x < |t.screens| && t.screens[x].generation == s.screens[x].generation
  }

  lemma {:induction false} OnIsAttached(s: State, c: Id, now: int)
    requires Inv(s, now) && IsOn(s, c)
    ensures c < |s.credentials| && s.credentials[c].screen < |s.screens|
    ensures !NoneAttached(s.credentials, s.credentials[c].screen)
            && c in EverAttached(s.credentials, s.credentials[c].screen)
    ensures SameGeneration(s, s, c)
  {
    hide GrantsSound, GrantsBehind, OriginsClaimed, IssuersCurrent, DevicesSound;
  }

  lemma {:induction false} ActivationElsewhere(m: Machine, e: Event, c: Id)
    requires MachineInv(m, e.at) && IsOn(m.state, c)
    requires e.request.ActivateReenrollment? || e.request.ActivateEnrollment?
    ensures SameGeneration(m.state, Effect(m, e), c)
  {
    hide Inv, IsOn, ReenrollmentActivated, EnrollmentActivated, Administers, StandsBehind, KeySpent, Recorded,
         FirstExpire, FirstRemoved, FirstForgotten, NoneAttached, EverAttached, StoredScreen, BoundBefore;
    var s, t, r, now := m.state, Effect(m, e), e.request, e.at;
    OnIsAttached(s, c, now);
    match r
    case ActivateReenrollment(org, screen, grant, attempt, actor) =>
      ReenrollmentDecides(s, org, screen, grant, attempt, actor, now);
      if t != s && screen == s.credentials[c].screen { ReenrollmentFindsNone(s, screen, grant, now); }
    case ActivateEnrollment(org, screen, grant, attempt, fingerprint, actor, keyed) =>
      EnrollmentDecides(s, org, screen, grant, attempt, fingerprint, actor, keyed, now);
  }

  lemma {:induction false} RequestsElsewhere(m: Machine, e: Event, c: Id)
    requires MachineInv(m, e.at) && IsOn(m.state, c) && !Ends(m, e, c)
    requires e.request.RevokeCredential? || e.request.RequestReenrollment? || e.request.DeleteScreen?
    ensures SameGeneration(m.state, Effect(m, e), c)
  {
    hide Inv, IsOn, CredentialRevoked, ReenrollmentRequested, ScreenDeleted, Administers, StoredScreen, CodeIsLive,
         GrantsRevoked, AttemptsCancelled, CredentialsDetached, ChallengesSpent, AttachedOn, EverAttached,
         PendingGrants, FirstOn, GrantFor, FirstExpire, FirstRemoved, FirstForgotten, NoneAttached;
    var s, t, r, now := m.state, Effect(m, e), e.request, e.at;
    OnIsAttached(s, c, now);
    match r
    case RevokeCredential(org, screen, actor) => RevocationDecides(s, org, screen, actor, now);
    case RequestReenrollment(org, screen, code, expiresAt, actor) =>
      ReenrollmentRequestDecides(s, org, screen, code, expiresAt, actor, now);
    case DeleteScreen(org, screen, actor) => DeletionDecides(s, org, screen, actor, now);
  }

  lemma {:induction false} OthersKeepGenerations(m: Machine, e: Event, c: Id)
    requires MachineInv(m, e.at) && IsOn(m.state, c)
    requires !e.request.RevokeCredential? && !e.request.RequestReenrollment? && !e.request.DeleteScreen?
             && !e.request.ActivateReenrollment? && !e.request.ActivateEnrollment?
    ensures SameGeneration(m.state, Effect(m, e), c)
  {
    hide Inv, IsOn, RevokedState, PrunedState, IsAdministrator, IssuerOf, IssuerCurrent, CodeTaken, Devices.HasKey,
         FindRecord, RecordRefusal, HasAnyCredential, FirstFreeCode, LiveChallenges, OutstandingAttempts, NoneAttached,
         ProvedAttempts, Accepts, ExpiredCode, ChallengeHashSeen, HashSeen, FindOpenCode, FindCode, EverAttached,
         Identity.Judge, Identity.Mutated, Unexpired;
    var s, now := m.state, e.at;
    OnIsAttached(s, c, now);
    match e.request
    case RequestEnrollment(org, screen, _, _, keyed) =>
      PrunedChallenges(s, org, now, Some(keyed.keyHash));
      RevokedChallenges(PrunedState(s, org, now, Some(keyed.keyHash)), EnrollingIn(org, screen), Unbound);
    case CancelGrant(org, screen, grant, purpose, actor) =>
      RevokedChallenges(s, Only(grant), Unconsumed);
      CancellingIs(s, org, screen, grant, purpose, actor);
    case MutateUser(mutation, sessions) =>
      var outcome := Identity.Judge(Identity.State(s.users, sessions, 0), mutation, now);
      if outcome.Applied? { RevokedChallenges(s, IssuedBy(mutation.user, outcome.orgs), Unbound); }
    case _ =>
  }

  /** While a credential is on and nothing ends it, the generation of its screen does not move. */
  lemma {:induction false} GenerationStays(m: Machine, e: Event, c: Id)
    requires MachineInv(m, e.at) && IsOn(m.state, c) && !Ends(m, e, c)
    ensures SameGeneration(m.state, Step(m, e).state, c)
  {
    hide MachineInv, IsOn, Ends, SameGeneration, Effect;
    if e.request.RevokeCredential? || e.request.RequestReenrollment? || e.request.DeleteScreen? {
      RequestsElsewhere(m, e, c);
    } else if e.request.ActivateReenrollment? || e.request.ActivateEnrollment? {
      ActivationElsewhere(m, e, c);
    } else {
      OthersKeepGenerations(m, e, c);
    }
  }

  // ------------------------------------------------------------------ over a run

  /** Events `i` up to `k` neither end the credential nor authenticate with the challenge. */
  ghost predicate Undisturbed(m: Machine, es: seq<Event>, i: nat, k: nat, x: Id, c: Id)
    requires k <= |es|
  {
    forall l: nat | i <= l < k ::
      !(c < |At(m, es, l).state.credentials| && Ends(At(m, es, l), es[l], c)) && !Authenticates(At(m, es, l), es[l], x)
  }

  ghost predicate OnAndOpen(m: Machine, es: seq<Event>, i: nat, x: Id, c: Id, now: int)
    requires i <= |es|
  {
    IsOn(At(m, es, i).state, c) && OpenFor(At(m, es, i).state, x, c, now)
  }

  lemma {:induction false} StepStays(m: Machine, e: Event, x: Id, c: Id, now: int)
    requires MachineInv(m, e.at) && IsOn(m.state, c) && OpenFor(m.state, x, c, now) && e.at <= now
    requires !(c < |m.state.credentials| && Ends(m, e, c)) && !Authenticates(m, e, x)
    ensures var s, t := m.state, Step(m, e).state;
            && IsOn(t, c) && OpenFor(t, x, c, now)
            && SameChallenge(s, t, x) && SameGeneration(s, t, c) && SameCredential(s, t, c)
  {
    hide MachineInv, IsOn, Ends, Authenticates, Effect, SameGeneration, SameCredential;
    OnIsThere(m.state, c);
    StepEnds(m, e, c);
    ChallengeStays(m, e, x, c);
    GenerationStays(m, e, c);
    NotEndedIsSame(m, e, c);
  }

  /** Until something ends its credential or uses it, an open challenge stays as it is, and so does the generation. */
  lemma {:induction false} StaysOpen(m: Machine, from: int, es: seq<Event>, i: nat, k: nat, x: Id, c: Id, now: int)
    requires MachineInv(m, from) && Clocked(from, es) && i <= k <= |es| && ClockAt(from, es, k) <= now
    requires OnAndOpen(m, es, i, x, c, now) && Undisturbed(m, es, i, k, x, c)
    ensures OnAndOpen(m, es, k, x, c, now)
    ensures var s, t := At(m, es, i).state, At(m, es, k).state;
            && SameChallenge(s, t, x) && SameGeneration(s, t, c)
            && c < |s.credentials| && c < |t.credentials| && t.credentials[c] == s.credentials[c]
    decreases k
  {
    hide MachineInv, Step, Ends, IsOn, Authenticates, Clocked;
    ReachableIsSound(m, from, es, i);
    if i == k {
      OnAtClock(At(m, es, i), ClockAt(from, es, i), c);
    } else {
      ClockGoesOn(from, es, k);
      StaysOpen(m, from, es, i, k - 1, x, c, now);
      ReachableIsSound(m, from, es, k - 1);
      StepStays(At(m, es, k - 1), es[k - 1], x, c, now);
    }
  }

  lemma {:induction false} ClockGoesOn(from: int, es: seq<Event>, k: nat)
    requires Clocked(from, es) && 0 < k <= |es|
    ensures ClockAt(from, es, k - 1) <= ClockAt(from, es, k) == es[k - 1].at
  {
  }

  lemma {:induction false} OnAtClock(m: Machine, now: int, c: Id)
    requires MachineInv(m, now) && IsOn(m.state, c)
    ensures SameGeneration(m.state, m.state, c) && c < |m.state.credentials|
  {
    hide Inv, SameGeneration, NoneAttached, EverAttached;
    OnIsAttached(m.state, c, now);
  }

  // ------------------------------------------------------------------ from the request of a challenge to its answer

  /**
   Event `g` begins to issue a challenge to credential `c`, event `h` issues it as `x`, event `i` begins
   a proof with its values, and event `j` finishes that proof, verified. Anything may come in between.
   */
  ghost predicate Exchange(m: Machine, es: seq<Event>, g: nat, h: nat, i: nat, j: nat, c: Id, x: Id) {
    && g < h < i < j < |es|
    && es[g].request.BeginIssue?
    && IssueBegun(At(m, es, g).state, es[g].request.challenge, es[g].at).credential == Some(c)
    && es[h].request.FinishIssue? && es[h].request.issue == |At(m, es, g).issues|
    && x == |At(m, es, h).state.challenges| < |At(m, es, h + 1).state.challenges|
    && var q := es[g].request.challenge;
       && es[i].request == BeginProof(ProofInput(c, x, q.hash, q.activity, q.request))
       && es[j].request == FinishProof(|At(m, es, i).proofs|, true)
  }

  /** The challenge as it is issued: for the credential and with the values asked for. */
  lemma {:induction false} IssuedAs(m: Machine, from: int, es: seq<Event>, g: nat, h: nat, i: nat, j: nat, c: Id, x: Id)
    requires MachineInv(m, from) && Clocked(from, es) && Exchange(m, es, g, h, i, j, c, x)
    ensures IsOn(At(m, es, g).state, c) && c < |At(m, es, h).state.credentials|
    ensures x < |At(m, es, h + 1).state.challenges| && c < |At(m, es, h + 1).state.credentials|
    ensures var q := es[g].request.challenge;
            At(m, es, h + 1).state.challenges[x]
            == Challenge(At(m, es, h + 1).state.credentials[c].org, c, q.hash, q.activity, q.request, q.expiresAt, None,
                         false)
  {
    hide MachineInv, Clocked, At, IsOn, Effect, IssueBegun, FirstDropped, ClaimBegun, ProofBegun;
    var began := At(m, es, g);
    BegunIssueIs(began, es[g], c);
    UnfoldAt(m, es, g);
    UnfoldAt(m, es, h);
    IssuesStay(m, es, g + 1, h, |began.issues|);
    CredentialStays(m, from, es, g, h, c);
    IssuedChallengeIs(At(m, es, h), es[h], Issue(Some(c), es[g].request.challenge));
  }

  lemma {:induction false} UnfoldAt(m: Machine, es: seq<Event>, i: nat)
    requires i < |es|
    ensures At(m, es, i + 1) == Step(At(m, es, i), es[i])
  {
  }

  lemma {:induction false} BegunIssueIs(m: Machine, e: Event, c: Id)
    requires e.request.BeginIssue? && IssueBegun(m.state, e.request.challenge, e.at).credential == Some(c)
    ensures IsOn(m.state, c)
    ensures var t := Step(m, e);
            |t.issues| == |m.issues| + 1 && t.issues[|m.issues|] == Issue(Some(c), e.request.challenge)
  {
    hide FindKeyed;
  }

  lemma {:induction false} IssuedChallengeIs(m: Machine, e: Event, issue: Issue)
    requires e.request.FinishIssue? && e.request.issue < |m.issues| && m.issues[e.request.issue] == issue
    requires issue.credential.Some? && issue.credential.value < |m.state.credentials|
    requires |Step(m, e).state.challenges| > |m.state.challenges|
    ensures var t, c, q := Step(m, e).state, issue.credential.value, issue.r;
            && t.credentials == m.state.credentials
            && t.challenges[|m.state.challenges|]
               == Challenge(m.state.credentials[c].org, c, q.hash, q.activity, q.request, q.expiresAt, None, false)
  {
    hide IssueFinished, MayIssue, FirstDropped;
    IssueDecides(m.state, issue, e.at);
  }

  /** The instant at which the exchange ends, seen from an earlier event. */
  lemma {:induction false} EndsLater(from: int, es: seq<Event>, k: nat, j: nat)
    requires Clocked(from, es) && k <= j < |es|
    ensures ClockAt(from, es, k) <= es[j].at && es[k].at <= es[j].at
  {
  }

  /** Undisturbed and in time, the proof begins, and is kept with the generation of its screen. */
  lemma {:induction false} ProofIsBegun(
      m: Machine, from: int, es: seq<Event>, g: nat, h: nat, i: nat, j: nat, c: Id, x: Id)
    requires MachineInv(m, from) && Clocked(from, es) && Exchange(m, es, g, h, i, j, c, x)
    requires OnAndOpen(m, es, h + 1, x, c, es[j].at) && Undisturbed(m, es, h + 1, j, x, c)
    requires c < |At(m, es, h + 1).state.credentials|
             && Unended(At(m, es, h + 1).state.credentials[c].expiresAt, es[j].at)
    requires x < |At(m, es, h + 1).state.challenges|
             && At(m, es, h + 1).state.challenges[x].org == At(m, es, h + 1).state.credentials[c].org
    requires var q, y := es[g].request.challenge, At(m, es, h + 1).state.challenges[x];
             y.hash == q.hash && y.activity == q.activity && y.request == q.request
    ensures OnAndOpen(m, es, i, x, c, es[j].at)
    ensures c < |At(m, es, i).state.credentials|
            && Unended(At(m, es, i).state.credentials[c].expiresAt, es[j].at)
    ensures Answers(At(m, es, i).state, es[i].request.input, es[j].at)
    ensures exists generation ::
              && AtGeneration(At(m, es, i).state, es[i].request.input, generation)
              && |At(m, es, i).proofs| < |At(m, es, j).proofs|
              && At(m, es, j).proofs[|At(m, es, i).proofs|] == Proof(es[i].request.input, generation)
  {
    hide MachineInv, At, Ends, Authenticates, Clocked, Step;
    EndsLater(from, es, i, j);
    StaysOpen(m, from, es, h + 1, i, x, c, es[j].at);
    var s, input := At(m, es, i).state, es[i].request.input;
    assert CanAuthenticate(s, c, es[i].at) && Answers(s, input, es[i].at);
    assert SameGeneration(At(m, es, h + 1).state, s, c);
    var proof := Proof(input, s.screens[s.credentials[c].screen].generation);
    ProofBeginsExactly(s, input, es[i].at, proof);
    BegunProofIsKept(At(m, es, i), es[i]);
    UnfoldAt(m, es, i);
    ProofsStay(m, es, i + 1, j, |At(m, es, i).proofs|);
  }

  lemma {:induction false} ProofSucceeds(
      m: Machine, from: int, es: seq<Event>, g: nat, h: nat, i: nat, j: nat, c: Id, x: Id)
    requires MachineInv(m, from) && Clocked(from, es) && Exchange(m, es, g, h, i, j, c, x)
    requires forall l: nat | g < l < j :: !(c < |At(m, es, l).state.credentials| && Ends(At(m, es, l), es[l], c))
    requires forall l: nat | h < l < j :: !Authenticates(At(m, es, l), es[l], x)
    requires es[j].at < es[g].request.challenge.expiresAt
    requires c < |At(m, es, g).state.credentials| && Unended(At(m, es, g).state.credentials[c].expiresAt, es[j].at)
    ensures Authenticates(At(m, es, j), es[j], x)
  {
    hide MachineInv, At, Step, Ends, Clocked, IssueBegun, IsOn, Accepts;
    IssuedAs(m, from, es, g, h, i, j, c, x);
    IssueEndsNothing(At(m, es, g), es[g], c);
    OnUntilEnded(m, from, es, g, h + 1, c);
    CredentialStays(m, from, es, g, h + 1, c);
    assert OnAndOpen(m, es, h + 1, x, c, es[j].at);
    ProofIsBegun(m, from, es, g, h, i, j, c, x);
    EndsLater(from, es, j, j);
    StaysOpen(m, from, es, i, j, x, c, es[j].at);
    var generation :| && AtGeneration(At(m, es, i).state, es[i].request.input, generation)
                      && At(m, es, j).proofs[|At(m, es, i).proofs|] == Proof(es[i].request.input, generation);
    StillAccepted(At(m, es, i).state, At(m, es, j).state, Proof(es[i].request.input, generation), es[j].at);
  }

  lemma {:induction false} IssueEndsNothing(m: Machine, e: Event, c: Id)
    requires e.request.BeginIssue? && c < |m.state.credentials|
    ensures !Ends(m, e, c)
  {
  }

  lemma {:induction false} StillAccepted(s: State, t: State, p: Proof, now: int)
    requires Answers(s, p.input, now) && AtGeneration(s, p.input, p.generation)
    requires IsOn(t, p.input.credential) && Unended(s.credentials[p.input.credential].expiresAt, now)
    requires SameChallenge(s, t, p.input.challenge) && SameGeneration(s, t, p.input.credential)
    requires p.input.credential < |t.credentials|
             && t.credentials[p.input.credential] == s.credentials[p.input.credential]
    ensures Accepts(t, p, now)
  {
  }

  lemma {:induction false} AcceptedIs(m: Machine, e: Event, x: Id)
    requires Authenticates(m, e, x)
    ensures x < |m.state.challenges| && e.at < m.state.challenges[x].expiresAt
    ensures var c := m.state.challenges[x].credential;
            IsOn(m.state, c) && c < |m.state.credentials| && Unended(m.state.credentials[c].expiresAt, e.at)
  {
  }

  lemma {:induction false} ChallengeIsFixed(m: Machine, from: int, es: seq<Event>, i: nat, j: nat, x: Id)
    requires MachineInv(m, from) && Clocked(from, es) && i <= j <= |es| && x < |At(m, es, i).state.challenges|
    ensures x < |At(m, es, j).state.challenges|
    ensures var y, z := At(m, es, i).state.challenges[x], At(m, es, j).state.challenges[x];
            z.credential == y.credential && z.expiresAt == y.expiresAt
  {
    hide MachineInv, Clocked, At;
    NothingGoesBack(m, from, es, i, j);
    assert ChallengeCloses(At(m, es, i).state.challenges[x], At(m, es, j).state.challenges[x]);
  }

  /**
   A device that answers the challenge it was issued, with the values it was issued for, is let in
   exactly when, from the request of the challenge to the end of the proof, nothing ended its
   credential and no other proof used the challenge, and neither the challenge nor the credential has
   expired. This holds for every activity, however requests are interleaved.
   */
  lemma {:induction false} ProofSucceedsExactly(
      m: Machine, from: int, es: seq<Event>, g: nat, h: nat, i: nat, j: nat, c: Id, x: Id)
    requires MachineInv(m, from) && Clocked(from, es) && Exchange(m, es, g, h, i, j, c, x)
    ensures Authenticates(At(m, es, j), es[j], x) <==>
              && (forall l: nat | g < l < j :: !(c < |At(m, es, l).state.credentials| && Ends(At(m, es, l), es[l], c)))
              && (forall l: nat | h < l < j :: !Authenticates(At(m, es, l), es[l], x))
              && es[j].at < es[g].request.challenge.expiresAt
              && c < |At(m, es, g).state.credentials|
              && Unended(At(m, es, g).state.credentials[c].expiresAt, es[j].at)
  {
    hide MachineInv, At, Step, Ends, Clocked, IssueBegun, IsOn, Authenticates;
    IssuedAs(m, from, es, g, h, i, j, c, x);
    OnIsThere(At(m, es, g).state, c);
    if Authenticates(At(m, es, j), es[j], x) {
      AcceptedIs(At(m, es, j), es[j], x);
      ChallengeIsFixed(m, from, es, h + 1, j, x);
      OnUntilEnded(m, from, es, g, j, c);
      CredentialStays(m, from, es, g, j, c);
      forall l: nat | h < l < j ensures !Authenticates(At(m, es, l), es[l], x) {
        ChallengeAuthenticatesOnce(m, from, es, l, j, x);
      }
    } else {
      if && (forall l: nat | g < l < j :: !(c < |At(m, es, l).state.credentials| && Ends(At(m, es, l), es[l], c)))
         && (forall l: nat | h < l < j :: !Authenticates(At(m, es, l), es[l], x))
         && es[j].at < es[g].request.challenge.expiresAt
         && Unended(At(m, es, g).state.credentials[c].expiresAt, es[j].at)
      {
        ProofSucceeds(m, from, es, g, h, i, j, c, x);
      }
    }
  }
}
