/** What the device protocol guarantees, over every run and every interleaving. */
module DeviceSafety {
  import opened Common
  import opened Devices
  import opened DeviceInvariants
  import opened DeviceSteps
  import opened DeviceRuns
  import opened IdentityEpochs

  // ------------------------------------------------------------------ credentials

  /**
   In every reachable store each screen has at most one attached credential, key ids are pairwise
   distinct and are exactly the burnt ones; and over a run no generation ever decreases.
   */
  lemma {:induction false} OneLiveCredential(m: Machine, from: int, es: seq<Event>, i: nat, j: nat)
    requires Fresh(m) && UniqueRows(m.state.users) && Clocked(from, es) && i <= j <= |es|
    ensures var s, t := At(m, es, i).state, At(m, es, j).state;
            && OneAttached(t.credentials) && KeysBurnt(t.credentials, t.usedKeys)
            && |s.screens| <= |t.screens| && s.usedKeys <= t.usedKeys
            && forall x | 0 <= x < |s.screens| :: s.screens[x].generation <= t.screens[x].generation
  {
    hide At, OneAttached, KeysBurnt, GrantsSound, GrantsBehind, OriginsClaimed, IssuersCurrent, Fresh, LiveBounded;
    FreshIsSound(m, from);
    ReachableIsSound(m, from, es, j);
    NothingGoesBack(m, from, es, i, j);
    assert forall x | 0 <= x < |At(m, es, i).state.screens| ::
             ScreenAdvances(At(m, es, i).state.screens[x], At(m, es, j).state.screens[x]);
  }

  /** Revoking, re-enrolling and decommissioning leave no credential attached to the screen. */
  lemma {:induction false} RevocationDetaches(s: State, e: Event, now: int)
    requires Inv(s, now)
    ensures var r := e.request;
            && (r.RevokeCredential? && CredentialRevoked(s, r.org, r.screen, r.actor, now).1.RevokedCredential? ==>
                  NoneAttached(CredentialRevoked(s, r.org, r.screen, r.actor, now).0.credentials, r.screen))
            && (r.RequestReenrollment?
                && ReenrollmentRequested(s, r.org, r.screen, r.code, r.expiresAt, r.actor, now).1.Made? ==>
                  NoneAttached(ReenrollmentRequested(s, r.org, r.screen, r.code, r.expiresAt, r.actor,
                                                     now).0.credentials, r.screen))
            && (r.DeleteScreen? && ScreenDeleted(s, r.org, r.screen, r.actor, now).1 ==>
                  NoneAttached(ScreenDeleted(s, r.org, r.screen, r.actor, now).0.credentials, r.screen))
  {
    hide PrunedState, RevokedGrants, CancelledAttempts, InvalidatedChallenges, IsAdministrator, CodeTaken, HasPending,
         GrantsSound, GrantsBehind, OriginsClaimed, IssuersCurrent, LiveBounded, KeysBurnt;
    var r := e.request;
    if r.RevokeCredential? {
      var c := CredentialToRevoke(s.credentials, r.org, r.screen);
      var attached := FindAttached(s.credentials, r.org, r.screen);
      if HasScreen(s.screens, r.org, r.screen) {
        assert forall i | 0 <= i < |s.credentials| && s.credentials[i].screen == r.screen ::
                 OfScreen(s.credentials[i], r.org, r.screen);
      }
    }
    if r.RequestReenrollment? && HasScreen(s.screens, r.org, r.screen) {
      PruningFrame(s, r.org, now, None, r.code);
      assert forall i | 0 <= i < |s.credentials| && s.credentials[i].screen == r.screen ::
               OfScreen(s.credentials[i], r.org, r.screen);
    }
    if r.DeleteScreen? && HasScreen(s.screens, r.org, r.screen) {
      assert forall i | 0 <= i < |s.credentials| && s.credentials[i].screen == r.screen ::
               OfScreen(s.credentials[i], r.org, r.screen);
    }
  }

  // ------------------------------------------------------------------ proofs

  /** The event authenticates a device with the challenge. */
  predicate Authenticates(m: Machine, e: Event, challenge: Id) {
    && e.request.FinishProof? && e.request.verified && e.request.proof < |m.proofs|
    && m.proofs[e.request.proof].input.challenge == challenge
    && Accepts(m.state, m.proofs[e.request.proof], e.at)
  }

  /** ... through the credential. */
  predicate AuthenticatesAs(m: Machine, e: Event, credential: Id) {
    && e.request.FinishProof? && e.request.verified && e.request.proof < |m.proofs|
    && m.proofs[e.request.proof].input.credential == credential
    && Accepts(m.state, m.proofs[e.request.proof], e.at)
  }

  lemma {:induction false} AuthenticationConsumes(m: Machine, e: Event, challenge: Id)
    requires Authenticates(m, e, challenge)
    ensures challenge < |m.state.challenges| && m.state.challenges[challenge].consumedAt.None?
    ensures challenge < |Step(m, e).state.challenges| && Step(m, e).state.challenges[challenge].consumedAt.Some?
  {
    hide IsActive;
  }

  /** However requests are interleaved, a challenge authenticates at most once. */
  lemma {:induction false} ChallengeAuthenticatesOnce(
      m: Machine, from: int, es: seq<Event>, i: nat, j: nat, challenge: Id)
    requires MachineInv(m, from) && Clocked(from, es) && i < j < |es|
    ensures !(Authenticates(At(m, es, i), es[i], challenge) && Authenticates(At(m, es, j), es[j], challenge))
  {
    hide MachineInv, Clocked, Authenticates, Step;
    if Authenticates(At(m, es, i), es[i], challenge) {
      AuthenticationConsumes(At(m, es, i), es[i], challenge);
      assert At(m, es, i + 1) == Step(At(m, es, i), es[i]);
      NothingGoesBack(m, from, es, i + 1, j);
      assert ChallengeCloses(At(m, es, i + 1).state.challenges[challenge], At(m, es, j).state.challenges[challenge]);
      if Authenticates(At(m, es, j), es[j], challenge) { AuthenticationConsumes(At(m, es, j), es[j], challenge); }
    }
  }

  /** Once a credential is detached or revoked, no proof authenticates through it, whenever it began. */
  lemma {:induction false} NeverAfterRevocation(m: Machine, from: int, es: seq<Event>, i: nat, j: nat, credential: Id)
    requires MachineInv(m, from) && Clocked(from, es) && i <= j < |es|
    requires var s := At(m, es, i).state;
             credential < |s.credentials|
             && (s.credentials[credential].detached || s.credentials[credential].revokedAt.Some?)
    ensures !AuthenticatesAs(At(m, es, j), es[j], credential)
  {
    hide MachineInv, Matches, Clocked, At;
    NothingGoesBack(m, from, es, i, j);
    assert CredentialDetaches(At(m, es, i).state.credentials[credential], At(m, es, j).state.credentials[credential]);
  }

  /** Once another credential is attached to its screen, a credential never authenticates again. */
  lemma {:induction false} NeverAfterReplacement(
      m: Machine, from: int, es: seq<Event>, i: nat, j: nat, credential: Id, replacement: Id)
    requires MachineInv(m, from) && Clocked(from, es) && i <= j < |es|
    requires var s := At(m, es, i).state;
             && credential != replacement && credential < |s.credentials| && replacement < |s.credentials|
             && s.credentials[credential].screen == s.credentials[replacement].screen
                && !s.credentials[replacement].detached
    ensures !AuthenticatesAs(At(m, es, j), es[j], credential)
  {
    hide Clocked, At, GrantsSound, GrantsBehind, OriginsClaimed, IssuersCurrent, LiveBounded, KeysBurnt,
         AuthenticatesAs;
    ReachableIsSound(m, from, es, i);
    NeverAfterRevocation(m, from, es, i, j, credential);
  }

  lemma {:induction false} ProofsStay(m: Machine, es: seq<Event>, i: nat, j: nat, k: nat)
    requires i <= j <= |es| && k < |At(m, es, i).proofs|
    ensures k < |At(m, es, j).proofs| && At(m, es, j).proofs[k] == At(m, es, i).proofs[k]
    decreases j
  {
    hide Effect, ClaimBegun, IssueBegun, ProofBegun;
    if i < j { ProofsStay(m, es, i, j - 1, k); }
  }

  /** A proof that begins is kept with the generation of its screen ... */
  lemma {:induction false} BegunProofIsKept(m: Machine, e: Event)
    requires e.request.BeginProof? && ProofBegun(m.state, e.request.input, e.at).Some?
    ensures var s, input, t := m.state, e.request.input, Step(m, e);
            && input.credential < |s.credentials| && s.credentials[input.credential].screen < |s.screens|
            && |t.proofs| == |m.proofs| + 1
            && t.proofs[|m.proofs|] == Proof(input, s.screens[s.credentials[input.credential].screen].generation)
  {
    hide Effect, Matches;
  }

  /** ... and authenticates only at that generation. */
  lemma {:induction false} AcceptedAtGeneration(m: Machine, e: Event, credential: Id)
    requires AuthenticatesAs(m, e, credential)
    ensures var s := m.state;
            && e.request.FinishProof? && e.request.proof < |m.proofs|
            && credential < |s.credentials| && s.credentials[credential].screen < |s.screens|
            && s.screens[s.credentials[credential].screen].generation == m.proofs[e.request.proof].generation
  {
    hide Matches;
  }

  /**
   From the moment a proof begins to the moment it authenticates, the generation of its screen stays
   the same: no revocation and no re-enrollment of the screen came in between.
   */
  lemma {:induction false} ProofSpansOneGeneration(m: Machine, from: int, es: seq<Event>, i: nat, j: nat, k: nat)
    requires MachineInv(m, from) && Clocked(from, es) && i < k <= j < |es|
    requires es[i].request.BeginProof? && ProofBegun(At(m, es, i).state, es[i].request.input, es[i].at).Some?
    requires es[j].request.FinishProof? && es[j].request.proof == |At(m, es, i).proofs|
    requires AuthenticatesAs(At(m, es, j), es[j], es[i].request.input.credential)
    ensures var s, t := At(m, es, i).state, At(m, es, k).state;
            var screen := s.credentials[es[i].request.input.credential].screen;
            screen < |s.screens| && |s.screens| <= |t.screens|
            && t.screens[screen].generation == s.screens[screen].generation
  {
    hide MachineInv, Clocked, Step, ProofBegun, AuthenticatesAs, GoesOn;
    BegunProofIsKept(At(m, es, i), es[i]);
    AcceptedAtGeneration(At(m, es, j), es[j], es[i].request.input.credential);
    var p := |At(m, es, i).proofs|;
    assert At(m, es, i + 1) == Step(At(m, es, i), es[i]);
    ProofsStay(m, es, i + 1, j, p);
    NothingGoesBack(m, from, es, i, k);
    NothingGoesBack(m, from, es, k, j);
    var s, t, u := At(m, es, i).state, At(m, es, k).state, At(m, es, j).state;
    var credential := es[i].request.input.credential;
    var screen := s.credentials[credential].screen;
    OnePlaceGoesOn(s, t, credential, screen);
    OnePlaceGoesOn(t, u, credential, screen);
  }

  lemma {:induction false} OnePlaceGoesOn(s: State, t: State, credential: Id, screen: Id)
    requires GoesOn(s, t) && credential < |s.credentials| && screen < |s.screens|
    ensures |s.credentials| <= |t.credentials| && |s.screens| <= |t.screens|
    ensures t.credentials[credential].screen == s.credentials[credential].screen
    ensures s.screens[screen].generation <= t.screens[screen].generation
  {
    assert CredentialDetaches(s.credentials[credential], t.credentials[credential]);
    assert ScreenAdvances(s.screens[screen], t.screens[screen]);
  }

  lemma {:induction false} SoundFromThenOn(m: Machine, from: int, es: seq<Event>, i: nat, at: int)
    requires MachineInv(m, from) && Clocked(from, es) && i <= |es| && ClockAt(from, es, i) <= at
    ensures MachineInv(At(m, es, i), at)
  {
    hide MachineInv, At;
    ReachableIsSound(m, from, es, i);
    MachineTimePasses(At(m, es, i), ClockAt(from, es, i), at);
  }

  /**
   After every event, and from then on, at most four challenges of a credential and an activity are
   unconsumed and unexpired.
   */
  lemma {:induction false} FewChallengesAreLive(
      m: Machine, from: int, es: seq<Event>, i: nat, at: int, credential: Id, activity: Activity)
    requires MachineInv(m, from) && Clocked(from, es) && i <= |es| && ClockAt(from, es, i) <= at
    ensures |LiveChallenges(At(m, es, i).state.challenges, credential, activity, at)| <= LIMIT
  {
    hide At, LiveChallenges, KeysBurnt, OneAttached, RevokedTogether, GrantsSound, GrantsBehind, OriginsClaimed,
         IssuersCurrent, Shaped;
    SoundFromThenOn(m, from, es, i, at);
  }

  // ------------------------------------------------------------------ grants

  /** A grant that has left the pending state keeps its status, and the screen it was claimed for, for good. */
  lemma {:induction false} GrantLeavesPendingOnce(m: Machine, from: int, es: seq<Event>, i: nat, j: nat, grant: Id)
    requires MachineInv(m, from) && Clocked(from, es) && i <= j <= |es|
    requires grant < |At(m, es, i).state.grants| && !At(m, es, i).state.grants[grant].status.Pending?
    ensures var g, t := At(m, es, i).state.grants[grant], At(m, es, j).state;
            grant < |t.grants| && t.grants[grant].status == g.status && t.grants[grant].screen == g.screen
  {
    hide At, MachineInv, Clocked;
    NothingGoesBack(m, from, es, i, j);
    assert GrantGoesOn(At(m, es, i).state.grants[grant], At(m, es, j).state.grants[grant]);
  }

  /** Of two grants of one reachable store: they are not pending for one screen, nor unexpired with one code. */
  lemma {:induction false} PendingGrantsAreFew(m: Machine, from: int, es: seq<Event>, i: nat, at: int, g: nat, h: nat)
    requires MachineInv(m, from) && Clocked(from, es) && i <= |es| && ClockAt(from, es, i) <= at
    requires var s := At(m, es, i).state; g < |s.grants| && h < |s.grants| && g != h
    ensures var s := At(m, es, i).state;
            && !(s.grants[g].target.Some? && PendingFor(s.grants[g], s.grants[g].target.value.screen)
                 && PendingFor(s.grants[h], s.grants[g].target.value.screen))
            && !(CodeLive(s.grants[g], at) && CodeLive(s.grants[h], at) && s.grants[g].codeHash == s.grants[h].codeHash)
  {
    hide At, DevicesSound, GrantsBehind, OriginsClaimed, IssuersCurrent, WonOnce, ProvedBounded, PrunedTogether,
         OutstandingBounded, Shaped;
    SoundFromThenOn(m, from, es, i, at);
  }

  /** Of every grant, in every reachable store, at most four attempts have proved themselves and are not cancelled. */
  lemma {:induction false} FewHaveProved(m: Machine, from: int, es: seq<Event>, i: nat, g: nat)
    requires MachineInv(m, from) && Clocked(from, es) && i <= |es|
    ensures |ProvedAttempts(At(m, es, i).state.attempts, g)| <= LIMIT
  {
    hide At, DevicesSound, GrantsBehind, OriginsClaimed, IssuersCurrent, WonOnce, OnePending, CodesDistinct,
         PrunedTogether, OutstandingBounded, Shaped, ProvedAttempts;
    ReachableIsSound(m, from, es, i);
  }

  /** Of every grant and key, at every instant, at most four attempts are unconsumed and unexpired. */
  lemma {:induction false} FewAreOutstanding(m: Machine, from: int, es: seq<Event>, i: nat, at: int, g: nat, key: Id)
    requires MachineInv(m, from) && Clocked(from, es) && i <= |es| && ClockAt(from, es, i) <= at
    ensures |OutstandingAttempts(At(m, es, i).state.attempts, g, key, at)| <= LIMIT
  {
    hide At, DevicesSound, GrantsBehind, OriginsClaimed, IssuersCurrent, WonOnce, OnePending, CodesDistinct,
         PrunedTogether, ProvedBounded, Shaped, OutstandingAttempts;
    SoundFromThenOn(m, from, es, i, at);
  }

  /** A claimed grant for a screen has exactly one bound attempt; all its other attempts are cancelled. */
  lemma {:induction false} ClaimedGrantHasOneWinner(m: Machine, from: int, es: seq<Event>, i: nat, g: nat)
    returns (w: nat)
    requires MachineInv(m, from) && Clocked(from, es) && i <= |es|
    requires var s := At(m, es, i).state; g < |s.grants| && s.grants[g].target.Some? && s.grants[g].status.Claimed?
    ensures var as_ := At(m, es, i).state.attempts;
            && WonBy(as_, g, w)
            && forall v | 0 <= v < |as_| :: IsWinner(as_, g, v) <==> v == w
  {
    hide At, DevicesSound, GrantsBehind, OriginsClaimed, IssuersCurrent, OnePending, CodesDistinct, ProvedBounded,
         PrunedTogether, OutstandingBounded, Shaped;
    ReachableIsSound(m, from, es, i);
    var s := At(m, es, i).state;
    w :| WonBy(s.attempts, g, w);
  }

  /** An open code makes at most one screen, however claims are interleaved. */
  lemma {:induction false} OpenCodeMakesOneScreen(m: Machine, from: int, es: seq<Event>, i: nat, x: nat, y: nat)
    requires MachineInv(m, from) && Clocked(from, es) && i <= |es|
    requires var s := At(m, es, i).state;
             x < |s.screens| && y < |s.screens| && s.screens[x].origin.Some?
             && s.screens[x].origin == s.screens[y].origin
    ensures x == y
    ensures var s := At(m, es, i).state;
            var g := s.screens[x].origin.value;
            g < |s.grants| && s.grants[g].status.Claimed? && s.grants[g].screen == Some(x)
  {
    hide At, DevicesSound, GrantsBehind, GrantsSound, IssuersCurrent, Shaped;
    ReachableIsSound(m, from, es, i);
  }

  /** Every pending grant for a screen is backed by an active owner or admin, in the epochs it was issued under. */
  lemma {:induction false} PendingGrantsAreBacked(m: Machine, from: int, es: seq<Event>, i: nat, g: nat)
    requires Fresh(m) && UniqueRows(m.state.users) && Clocked(from, es) && i <= |es|
    requires var s := At(m, es, i).state; g < |s.grants| && s.grants[g].target.Some? && s.grants[g].status.Pending?
    ensures var s := At(m, es, i).state; IssuerCurrent(s.users, s.grants[g].org, s.grants[g].target.value.issuer)
  {
    hide At, DevicesSound, GrantsBehind, GrantsSound, OriginsClaimed, Shaped, IssuerCurrent, UniqueRows, Fresh;
    FreshIsSound(m, from);
    ReachableIsSound(m, from, es, i);
  }
}
