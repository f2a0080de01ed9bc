/** Where credentials come from: a verified proof of the key and, for a chosen screen, an administrator. */
module DeviceOrigins {
  import opened Common
  import opened Devices
  import opened DeviceInvariants
  import opened DeviceSteps
  import opened DeviceRuns
  import opened DeviceEffects
  import opened DeviceDecisions
  import opened DeviceProofs
  import Identity
  import opened IdentityEpochs

  /**
   The event completes a claim of the attempt whose proof has been verified, before the attempt and its
   pending grant expire, with a key no credential ever had and, for a chosen screen, with the issuer
   still behind the grant.
   */
  ghost predicate Verifies(m: Machine, e: Event, attempt: Id) {
    && e.request.FinishClaim? && e.request.verified && e.request.claim < |m.claims|
    && var s, c := m.state, m.claims[e.request.claim];
       && c.attempt == attempt && c.attempt < |s.attempts| && c.grant < |s.grants|
       && s.attempts[attempt].grant == c.grant
       && InTime(s, c, e.at) && (s.grants[c.grant].target.Some? ==> MayBeProved(s, c))
  }

  /**
   The event is an administrator's activation of the attempt, proved and not cancelled, for a grant that
   is pending, has time left and a current issuer, at the generation its screen has.
   */
  ghost predicate Activates(m: Machine, e: Event, attempt: Id) {
    var r := e.request;
    && (r.ActivateReenrollment? || r.ActivateEnrollment?) && r.attempt == attempt
    && Administers(m.state.users, r.org, r.actor) && CanBind(m.state, r.org, r.screen, r.grant, attempt, e.at)
    && m.state.grants[r.grant].target.value.purpose == (if r.ActivateReenrollment? then Reenroll else Enroll)
    && (r.ActivateEnrollment? ==> m.state.attempts[attempt].key == r.fingerprint && NeverPaired(m.state, r.screen))
  }

  predicate HasProved(a: Attempt) { a.proved || a.consumed }

  // ------------------------------------------------------------------ what events leave alone

  /** No attempt is added or proves itself, and no credential is made. */
  ghost predicate Quiet(s: State, t: State) {
    && |t.attempts| == |s.attempts| && |t.credentials| == |s.credentials|
    && forall k | 0 <= k < |s.attempts| :: HasProved(t.attempts[k]) == HasProved(s.attempts[k])
  }

  lemma {:induction false} RevokingIsQuiet(s: State, sel: Selector, cancel: Cancel)
    ensures Quiet(s, RevokedState(s, sel, cancel))
  {
    hide Selects, LosesGrant;
  }

  lemma {:induction false} PruningIsQuiet(s: State, org: Id, now: int, keep: Option<Id>)
    ensures Quiet(s, PrunedState(s, org, now, keep))
  {
    hide LosesRecord, ExpiresNow, RemovedNow, ForgottenNow;
  }

  lemma {:induction false} DetachingIsQuiet(s: State, p: Picked, now: int)
    ensures Quiet(s, DetachedState(s, p, now))
  {
  }

  /** Events other than claims, proof requests and activations are quiet. */
  lemma {:induction false} OthersAreQuiet(m: Machine, e: Event)
    requires !e.request.FinishClaim? && !e.request.IssueProof? && !e.request.ActivateReenrollment?
             && !e.request.ActivateEnrollment?
    ensures Quiet(m.state, Effect(m, e))
  {
    hide RevokedState, PrunedState, DetachedState, IsAdministrator, IssuerOf, CodeTaken, FindRecord, RecordRefusal,
         HasAnyCredential, FirstFreeCode, LiveChallenges, Accepts, CredentialToRevoke, HasPending, KeptChallenges,
         ExpiredCode, ChallengeHashSeen, FindOpenCode, Identity.Judge, Identity.Mutated, HasProved;
    var s := m.state;
    match e.request
    case RequestReenrollment(org, screen, _, _, _) =>
      var pruned := PrunedState(s, org, e.at, None);
      var revoked := RevokedState(pruned, Targeting(screen), Unbound);
      PruningIsQuiet(s, org, e.at, None);
      RevokingIsQuiet(pruned, Targeting(screen), Unbound);
      DetachingIsQuiet(revoked, AttachedTo(org, screen), e.at);
    case RequestEnrollment(org, screen, _, _, keyed) =>
      PruningIsQuiet(s, org, e.at, Some(keyed.keyHash));
      RevokingIsQuiet(PrunedState(s, org, e.at, Some(keyed.keyHash)), EnrollingIn(org, screen), Unbound);
    case CancelGrant(org, screen, grant, purpose, actor) =>
      RevokingIsQuiet(s, Only(grant), Unconsumed);
      CancellingIs(s, org, screen, grant, purpose, actor);
    case RevokeCredential(org, screen, _) => RevocationIsQuiet(m, e);
    case DeleteScreen(org, screen, _) =>
      DetachingIsQuiet(s, EverOn(org, screen), e.at);
      RevokingIsQuiet(DetachedState(s, EverOn(org, screen), e.at), Targeting(screen), Nothing);
    case MutateUser(mutation, sessions) =>
      var outcome := Identity.Judge(Identity.State(s.users, sessions, 0), mutation, e.at);
      if outcome.Applied? { RevokingIsQuiet(s, IssuedBy(mutation.user, outcome.orgs), Unbound); }
    case _ =>
  }

  lemma {:induction false} RevocationIsQuiet(m: Machine, e: Event)
    requires e.request.RevokeCredential?
    ensures Quiet(m.state, Effect(m, e))
  {
    hide RevokedState, DetachedState, IsAdministrator, CredentialToRevoke, HasPending, HasProved;
    var s, org, screen := m.state, e.request.org, e.request.screen;
    var c := CredentialToRevoke(s.credentials, org, screen);
    RevokingIsQuiet(s, TargetingIn(org, screen), Unconsumed);
    RevokingFrame(s, TargetingIn(org, screen), Unconsumed, 0, e.at);
    if c.Some? && HasScreen(s.screens, org, screen) {
      DetachingIsQuiet(s, Single(c.value), e.at);
      DetachingFrame(s, Single(c.value), e.at);
      RevokingIsQuiet(Advanced(DetachedState(s, Single(c.value), e.at), screen), Targeting(screen), Unconsumed);
    }
  }

  // ------------------------------------------------------------------ what the others do

  /** One credential, of the attempt's key, and no attempt newly proved. */
  ghost predicate Binds(s: State, t: State, attempt: Id) {
    && attempt < |s.attempts| && |t.attempts| == |s.attempts| && |t.credentials| == |s.credentials| + 1
    && t.credentials[|s.credentials|].key == s.attempts[attempt].key
    && forall k | 0 <= k < |s.attempts| :: HasProved(t.attempts[k]) == HasProved(s.attempts[k])
  }

  lemma {:induction false} AttachingBinds(s: State, screen: Id, grant: Id, attempt: Id)
    requires screen < |s.screens| && grant < |s.grants| && attempt < |s.attempts|
    ensures Binds(s, Attached(s, screen, grant, attempt), attempt)
  {
  }

  lemma {:induction false} RevokingKeepsCredentials(s: State, sel: Selector, cancel: Cancel)
    ensures RevokedState(s, sel, cancel).credentials == s.credentials
  {
  }

  /** An activation that makes a credential is an administrator's, of an attempt that has proved itself. */
  lemma {:induction false} ActivationBinds(m: Machine, e: Event)
    requires MachineInv(m, e.at) && (e.request.ActivateReenrollment? || e.request.ActivateEnrollment?)
    ensures var s, t, attempt := m.state, Effect(m, e), e.request.attempt;
            Quiet(s, t) || (Binds(s, t, attempt) && HasProved(s.attempts[attempt]) && Activates(m, e, attempt))
  {
    hide Inv, RevokedState, PrunedState, Attached, IsAdministrator, IssuerCurrent, HasKey, FindRecord, RecordRefusal,
         HasAnyCredential, Administers, StandsBehind, KeySpent, NeverPaired, Recorded, StoredScreen;
    var s, now := m.state, e.at;
    match e.request
    case ActivateReenrollment(org, screen, grant, attempt, actor) =>
      ReenrollmentActivatesExactly(s, org, screen, grant, attempt, actor, now);
      if ReenrollmentActivated(s, org, screen, grant, attempt, actor, now).0 != s {
        AttachingBinds(s, screen, grant, attempt);
        RevokingIsQuiet(Attached(s, screen, grant, attempt), Targeting(screen), Nothing);
        RevokingKeepsCredentials(Attached(s, screen, grant, attempt), Targeting(screen), Nothing);
      }
    case ActivateEnrollment(org, screen, grant, attempt, fingerprint, actor, keyed) =>
      var pruned := PrunedState(s, org, now, Some(keyed.keyHash));
      EnrollmentActivatesExactly(s, org, screen, grant, attempt, fingerprint, actor, keyed, now);
      PruningIsQuiet(s, org, now, Some(keyed.keyHash));
      var (t, r) := EnrollmentActivated(s, org, screen, grant, attempt, fingerprint, actor, keyed, now);
      if r.Active? && !r.replayed {
        PruningKeepsLive(s, org, now, Some(keyed.keyHash), grant, attempt);
        AttachingBinds(pruned, screen, grant, attempt);
        RevokingIsQuiet(Attached(pruned, screen, grant, attempt), TargetingIn(org, screen), Unbound);
        RevokingKeepsCredentials(Attached(pruned, screen, grant, attempt), TargetingIn(org, screen), Unbound);
      }
  }

  /**
   A claim proves its own attempt at most, and makes a credential, of that attempt's key, only through
   an open grant.
   */
  lemma {:induction false} ClaimBinds(s: State, c: Claim, now: int)
    requires ClaimRefers(s, c)
    ensures var t := ClaimFinished(s, c, now).0;
            && |t.attempts| == |s.attempts|
            && (forall k | 0 <= k < |s.attempts| && k != c.attempt :: t.attempts[k] == s.attempts[k])
            && (t != s ==> InTime(s, c, now) && (s.grants[c.grant].target.Some? ==> MayBeProved(s, c)))
            && (|t.credentials| == |s.credentials|
                || (s.grants[c.grant].target.None? && |t.credentials| == |s.credentials| + 1
                    && t.credentials[|s.credentials|].key == s.attempts[c.attempt].key))
  {
    hide ClaimFinished, StandsBehind, KeySpent, ProvedOf;
    ClaimDecides(s, c, now);
  }

  // ------------------------------------------------------------------ proofs come first

  /** Only a verified claim makes an attempt proved. */
  lemma {:induction false} StepProves(m: Machine, e: Event, k: nat)
    requires MachineInv(m, e.at) && k < |Step(m, e).state.attempts| && HasProved(Step(m, e).state.attempts[k])
    ensures (k < |m.state.attempts| && HasProved(m.state.attempts[k])) || Verifies(m, e, k)
  {
    hide Inv, ReenrollmentActivated, EnrollmentActivated, ClaimFinished, PairingCreated, ReenrollmentRequested,
         EnrollmentRequested, GrantCancelled, PairingClaimed, IssueFinished, ProofFinished, CredentialRevoked,
         ScreenDeleted, UserMutated, FindCode, IssuerCurrent, HasKey, HashSeen, OutstandingAttempts,
         Activates, InTime, MayBeProved;
    var r := e.request;
    if r.ActivateReenrollment? || r.ActivateEnrollment? {
      ActivationBinds(m, e);
    } else if r.FinishClaim? {
      if r.claim < |m.claims| {
        assert m.claims[r.claim] in m.claims;
        ClaimBinds(m.state, m.claims[r.claim], e.at);
      }
    } else if !r.IssueProof? {
      OthersAreQuiet(m, e);
    }
  }

  /**
   A new credential carries the key of an attempt that a claim has just proved, or that an administrator
   activates.
   */
  lemma {:induction false} StepBinds(m: Machine, e: Event, c: nat) returns (k: nat)
    requires MachineInv(m, e.at) && |m.state.credentials| <= c < |Step(m, e).state.credentials|
    ensures c == |m.state.credentials| && k < |m.state.attempts|
    ensures Step(m, e).state.credentials[c].key == m.state.attempts[k].key
    ensures (Verifies(m, e, k) && m.state.attempts[k].grant < |m.state.grants|
             && m.state.grants[m.state.attempts[k].grant].target.None?)
            || (Activates(m, e, k) && HasProved(m.state.attempts[k]))
  {
    hide Inv, ReenrollmentActivated, EnrollmentActivated, ClaimFinished, PairingCreated, ReenrollmentRequested,
         EnrollmentRequested, GrantCancelled, PairingClaimed, IssueFinished, ProofFinished, CredentialRevoked,
         ScreenDeleted, UserMutated, FindCode, IssuerCurrent, HasKey, HashSeen, OutstandingAttempts, IsAdministrator,
         Activates, InTime, MayBeProved;
    var r := e.request;
    k := 0;
    if r.ActivateReenrollment? || r.ActivateEnrollment? {
      ActivationBinds(m, e);
      k := r.attempt;
    } else if r.FinishClaim? && r.claim < |m.claims| {
      assert m.claims[r.claim] in m.claims;
      ClaimBinds(m.state, m.claims[r.claim], e.at);
      k := m.claims[r.claim].attempt;
    } else if !r.IssueProof? && !r.FinishClaim? {
      OthersAreQuiet(m, e);
    }
  }

  lemma {:induction false} ProvedWasVerified(m: Machine, from: int, es: seq<Event>, n: nat, k: nat) returns (i: nat)
    requires Fresh(m) && UniqueRows(m.state.users) && Clocked(from, es) && n <= |es|
    requires k < |At(m, es, n).state.attempts| && HasProved(At(m, es, n).state.attempts[k])
    ensures i < n && Verifies(At(m, es, i), es[i], k)
    decreases n
  {
    hide MachineInv, Step, UniqueRows, Verifies;
    FreshIsSound(m, from);
    if n > 0 {
      ReachableIsSound(m, from, es, n - 1);
      StepProves(At(m, es, n - 1), es[n - 1], k);
      if Verifies(At(m, es, n - 1), es[n - 1], k) {
        i := n - 1;
      } else {
        i := ProvedWasVerified(m, from, es, n - 1, k);
      }
    }
  }

  lemma {:induction false} KeysStay(m: Machine, from: int, es: seq<Event>, i: nat, j: nat, k: nat, c: nat)
    requires MachineInv(m, from) && Clocked(from, es) && i <= j <= |es|
    ensures k < |At(m, es, i).state.attempts| ==>
              && k < |At(m, es, j).state.attempts|
              && At(m, es, j).state.attempts[k].key == At(m, es, i).state.attempts[k].key
    ensures c < |At(m, es, i).state.credentials| ==>
              && c < |At(m, es, j).state.credentials|
              && At(m, es, j).state.credentials[c].key == At(m, es, i).state.credentials[c].key
  {
    hide MachineInv, At;
    NothingGoesBack(m, from, es, i, j);
    var s, t := At(m, es, i).state, At(m, es, j).state;
    if k < |s.attempts| { assert AttemptGoesOn(s.attempts[k], t.attempts[k]); }
    if c < |s.credentials| { assert CredentialDetaches(s.credentials[c], t.credentials[c]); }
  }

  /**
   No credential without a proof: every credential in any reachable store carries the key of an
   attempt whose proof of possession was verified by event `i`, and was made by an event `j` that is
   that same claim, through an open code, or a later activation of that attempt by an administrator.
   */
  lemma {:induction false} CredentialsComeFromProofs(m: Machine, from: int, es: seq<Event>, n: nat, c: nat)
    returns (i: nat, j: nat, k: nat)
    requires Fresh(m) && UniqueRows(m.state.users) && Clocked(from, es) && n <= |es|
    requires c < |At(m, es, n).state.credentials|
    ensures i <= j < n && Verifies(At(m, es, i), es[i], k)
    ensures i == j || Activates(At(m, es, j), es[j], k)
    ensures |At(m, es, j).state.credentials| == c < |At(m, es, j + 1).state.credentials|
    ensures k < |At(m, es, j).state.attempts|
            && At(m, es, n).state.credentials[c].key == At(m, es, j).state.attempts[k].key
    decreases n
  {
    hide MachineInv, Step, UniqueRows, Verifies, Activates, HasProved, Fresh;
    FreshIsSound(m, from);
    if n == 0 {
      NoneToBeginWith(m);
    } else {
      var before := At(m, es, n - 1);
      ReachableIsSound(m, from, es, n - 1);
      KeysStay(m, from, es, n - 1, n, 0, c);
      if c < |before.state.credentials| {
        i, j, k := CredentialsComeFromProofs(m, from, es, n - 1, c);
      } else {
        j := n - 1;
        k := StepBinds(before, es[n - 1], c);
        if Verifies(before, es[n - 1], k) { i := n - 1; } else { i := ProvedWasVerified(m, from, es, n - 1, k); }
      }
    }
  }

  lemma {:induction false} NoneToBeginWith(m: Machine)
    requires Fresh(m)
    ensures m.state.credentials == []
  {
  }
}
