/** What the outcome of each call means for its caller, and what asking again would yield. */
module DeviceOutcomes {
  import opened Common
  import opened Devices
  import opened DeviceInvariants
  import opened DeviceSteps

  // ------------------------------------------------------------------ helpers

  lemma {:induction false} FirstIs<T(!new)>(s: seq<T>, p: T -> bool, k: nat)
    requires k < |s| && p(s[k]) && forall i | 0 <= i < k :: !p(s[i])
    ensures FirstWhere(s, p) == Some(k)
  {
  }

  /** No grant that the selector could still select is left. */
  ghost predicate NoneSelected(grants: seq<Grant>, sel: Selector) {
    forall i | 0 <= i < |grants| :: !Selects(sel, i, grants[i])
  }

  lemma {:induction false} NoneSelectedAfter(s: State, sel: Selector, cancel: Cancel)
    ensures NoneSelected(RevokedState(s, sel, cancel).grants, sel)
  {
  }

  /** A screen with nothing attached has no credential that could authenticate, at any time. */
  lemma {:induction false} NoneAttachedMeansNoneActive(s: State, screen: Id)
    requires NoneAttached(s.credentials, screen)
    ensures forall c: Id, at | c < |s.credentials| && s.credentials[c].screen == screen :: !IsActive(s, c, at)
  {
  }

  // ------------------------------------------------------------------ pruning

  /** Whatever is pending and unexpired stays, with its attempts, and so does everything of the other organizations. */
  lemma {:induction false} PruningLeavesAlone(s: State, org: Id, now: int, keep: Option<Id>)
    ensures var t := PrunedState(s, org, now, keep);
            && |t.grants| == |s.grants| && |t.attempts| == |s.attempts| && |t.records| == |s.records|
            && (forall i | 0 <= i < |s.grants|
                           && (s.grants[i].org != org || (CodeLive(s.grants[i], now) && !s.grants[i].pruned)) ::
                  t.grants[i] == s.grants[i])
            && (forall i | 0 <= i < |s.attempts| && s.attempts[i].grant < |s.grants|
                           && (s.grants[s.attempts[i].grant].org != org
                               || CodeLive(s.grants[s.attempts[i].grant], now)) ::
                  t.attempts[i] == s.attempts[i])
            && (forall i | 0 <= i < |s.records|
                           && (s.records[i].org != org || now < s.records[i].expiresAt
                               || Some(s.records[i].keyHash) == keep) ::
                  t.records[i] == s.records[i])
  {
    hide ExpiresFirst, RecordFirst;
    PruningRetires(s, org, now, keep);
  }

  /** Codes that were taken are taken, and codes that were free are free. */
  lemma {:induction false} PruningKeepsCodes(s: State, org: Id, now: int, keep: Option<Id>, code: Id)
    ensures CodeTaken(PrunedState(s, org, now, keep).grants, code, now) == CodeTaken(s.grants, code, now)
  {
    hide PrunedState;
    var t := PrunedState(s, org, now, keep);
    PruningRetires(s, org, now, keep);
    forall i | 0 <= i < |s.grants| ensures CodeInUse(t.grants[i], code, now) == CodeInUse(s.grants[i], code, now) {
      assert GrantRetires(s.grants[i], t.grants[i]);
    }
  }

  // ------------------------------------------------------------------ grants

  /** The code of a new open grant leads to that grant. */
  lemma {:induction false} PairingCreatedIsClaimable(s: State, org: Id, code: Id, expiresAt: int, actor: Id, now: int)
    ensures var (t, r) := PairingCreated(s, org, code, expiresAt, actor, now);
            r.Made? && now < expiresAt ==> FindOpenCode(t.grants, code, now) == Some(r.grant)
  {
    hide IsAdministrator;
    var (t, r) := PairingCreated(s, org, code, expiresAt, actor, now);
    if r.Made? && now < expiresAt {
      forall i | 0 <= i < r.grant ensures !CodeInUse(t.grants[i], code, now) {
        assert !CodeInUse(s.grants[i], code, now);
      }
      FirstIs(t.grants, (g: Grant) => CodeInUse(g, code, now) && g.target.None?, r.grant);
    }
  }

  /** A granted re-enrollment leaves nothing attached to the screen, and no other grant for it pending. */
  lemma {:induction false} ReenrollmentRequestedClears(
      s: State, org: Id, screen: Id, code: Id, expiresAt: int, actor: Id, now: int)
    requires Inv(s, now)
    ensures var (t, r) := ReenrollmentRequested(s, org, screen, code, expiresAt, actor, now);
            r.Made? ==>
              && NoneAttached(t.credentials, screen)
              && r.grant == |s.grants| == |t.grants| - 1 && PendingFor(t.grants[r.grant], screen)
              && screen < |s.screens| && screen < |t.screens|
                 && t.screens[screen].generation == s.screens[screen].generation + 1
              && forall i | 0 <= i < r.grant :: !PendingFor(t.grants[i], screen)
  {
    hide Inv, IsAdministrator, CodeTaken, PrunedState, RevokedState, DetachedState, IssuerOf, NoneAttached;
    if IsAdministrator(s.users, org, actor) && HasScreen(s.screens, org, screen) && !CodeTaken(s.grants, code, now) {
      var pruned := PrunedState(s, org, now, None);
      var revoked := RevokedState(pruned, Targeting(screen), Unbound);
      PruningKeepsInv(s, org, now, None, now);
      PruningFrame(s, org, now, None, code);
      RevokingKeepsInv(pruned, Targeting(screen), Unbound, now);
      RevokingFrame(pruned, Targeting(screen), Unbound, code, now);
      NonePendingAfter(pruned, screen, Unbound, now);
      NoneAttachedAfter(revoked, org, screen, now);
      DetachingFrame(revoked, AttachedTo(org, screen), now);
    }
  }

  lemma {:induction false} RecordKeptInPlace(
      records: seq<EnrollmentRecord>, org: Id, now: int, keep: Option<Id>, kind: RecordKind, key: Id,
                           r: EnrollmentRecord)
    requires FindRecord(records, kind, org, key).None? && r.kind == kind && r.org == org && r.keyHash == key
    ensures FindRecord(KeptRecords(records, org, now, keep) + [r], kind, org, key) == Some(|records|)
  {
    hide ForgottenNow;
    var kept := KeptRecords(records, org, now, keep) + [r];
    forall i | 0 <= i < |records| ensures !(kept[i].kind == kind && kept[i].org == org && kept[i].keyHash == key) {
      assert kept[i].kind == records[i].kind && kept[i].org == records[i].org && kept[i].keyHash == records[i].keyHash;
    }
    FirstIs(kept, (r: EnrollmentRecord) => r.kind == kind && r.org == org && r.keyHash == key, |records|);
  }

  /** Asking for the same enrollment again is answered with the same grant, until the record expires. */
  lemma {:induction false} EnrollmentRequestIsRepeatable(
      s: State, org: Id, screen: Id, codes: seq<Id>, actor: Id, k: Keyed, now: int, later: int)
    requires now <= later < now + AUTHORITY_RETENTION
    ensures var (t, r) := EnrollmentRequested(s, org, screen, codes, actor, k, now);
            r.Made? && !r.replayed ==>
              EnrollmentRequested(t, org, screen, codes, actor, k, later).1 == Made(r.grant, true)
  {
    hide IsAdministrator, CodeTaken, IssuerOf, HasAnyCredential, FirstFreeCode, KeptRecords, RevokedGrants,
         CancelledAttempts, FindRecord, ExpiredGrants, KeptGrants, KeptAttempts;
    var (t, r) := EnrollmentRequested(s, org, screen, codes, actor, k, now);
    if r.Made? && !r.replayed {
      var record :=
        EnrollmentRecord(CreateRecord, org, k.keyHash, actor, k.request, now + AUTHORITY_RETENTION, Some(r.grant));
      RecordKeptInPlace(s.records, org, now, Some(k.keyHash), CreateRecord, k.keyHash, record);
    }
  }

  /** A new enrollment is the one pending grant of its screen. */
  lemma {:induction false} EnrollmentRequestedIsOnlyOne(
      s: State, org: Id, screen: Id, codes: seq<Id>, actor: Id, k: Keyed, now: int)
    requires Inv(s, now)
    ensures var (t, r) := EnrollmentRequested(s, org, screen, codes, actor, k, now);
            r.Made? && !r.replayed ==>
              && r.grant == |s.grants| == |t.grants| - 1 && PendingFor(t.grants[r.grant], screen)
                 && t.grants[r.grant].codeHash in codes
              && forall i | 0 <= i < r.grant :: !PendingFor(t.grants[i], screen)
  {
    hide Inv, IsAdministrator, CodeTaken, PrunedState, RevokedState, IssuerOf, HasAnyCredential, FirstFreeCode,
         FindRecord, RecordRefusal;
    var (t, r) := EnrollmentRequested(s, org, screen, codes, actor, k, now);
    if r.Made? && !r.replayed {
      var keep := Some(k.keyHash);
      var code := FirstFreeCode(s.grants, codes, now);
      var pruned := PrunedState(s, org, now, keep);
      PruningKeepsInv(s, org, now, keep, now);
      PruningFrame(s, org, now, keep, code.value);
      RevokingFrame(pruned, EnrollingIn(org, screen), Unbound, code.value, now);
      NonePendingForEnrollment(pruned, org, screen, Unbound, now);
    }
  }

  /** A cancelled grant is closed and leaves no attempt that could still be activated. */
  lemma {:induction false} CancelledIsClosed(
      s: State, org: Id, screen: Id, grant: Id, purpose: Purpose, actor: Id, now: int)
    requires Inv(s, now)
    ensures var (t, cancelled) := GrantCancelled(s, org, screen, grant, purpose, actor);
            cancelled ==>
              && grant < |t.grants| && t.grants[grant].status.Revoked?
              && forall i | 0 <= i < |t.attempts| && t.attempts[i].grant == grant && !t.attempts[i].consumed ::
                   t.attempts[i].cancelled
  {
    hide IsAdministrator, OnePending, CodesDistinct, WonOnce, ProvedBounded, OutstandingBounded, DevicesSound,
         GrantsBehind, OriginsClaimed, IssuersCurrent, Shaped;
    var (t, cancelled) := GrantCancelled(s, org, screen, grant, purpose, actor);
    if cancelled {
      assert forall i | 0 <= i < |s.attempts| && s.attempts[i].grant == grant :: !s.attempts[i].pruned;
    }
  }

  // ------------------------------------------------------------------ activating

  /** The credential is new, attached to the screen and of the attempt's key. */
  predicate BoundTo(s: State, c: Id, screen: Id, attempt: Id) {
    && c < |s.credentials| && attempt < |s.attempts| && screen < |s.screens|
    && !s.credentials[c].detached && s.credentials[c].revokedAt.None?
    && s.credentials[c].screen == screen && s.credentials[c].org == s.screens[screen].org
    && s.credentials[c].key == s.attempts[attempt].key && s.attempts[attempt].bound == Some(c)
  }

  /** An activated re-enrollment binds its attempt, and activating again finds the same credential. */
  lemma {:induction false} ReenrollmentIsRepeatable(
      s: State, org: Id, screen: Id, grant: Id, attempt: Id, actor: Id, now: int, later: int)
    ensures var (t, r) := ReenrollmentActivated(s, org, screen, grant, attempt, actor, now);
            r.Active? && !r.replayed ==>
              && BoundTo(t, r.credential, screen, attempt)
              && ReenrollmentActivated(t, org, screen, grant, attempt, actor, later) == (t, Active(r.credential, true))
  {
    hide IsAdministrator, IssuerCurrent, HasKey, Selects, CancelledBy;
    var (t, r) := ReenrollmentActivated(s, org, screen, grant, attempt, actor, now);
    if r.Active? && !r.replayed {
      var u := Attached(s, screen, grant, attempt);
      ClaimedIsNotSelected(Targeting(screen), grant, u.grants[grant]);
      assert t.grants[grant] == u.grants[grant];
      assert t.attempts[attempt] == u.attempts[attempt] by { NothingIsCancelled(u.attempts[attempt]); }
    }
  }

  lemma {:induction false} ClaimedIsNotSelected(sel: Selector, i: nat, g: Grant)
    requires !g.status.Pending?
    ensures !Selects(sel, i, g)
  {
  }

  lemma {:induction false} NothingIsCancelled(a: Attempt)
    ensures !CancelledBy(Nothing, a) && (a.bound.Some? ==> !CancelledBy(Unbound, a))
  {
  }

  /** An activated enrollment binds its attempt, and the same request is answered with the same credential. */
  lemma {:induction false} EnrollmentIsRepeatable(
      s: State, org: Id, screen: Id, grant: Id, attempt: Id, fingerprint: Id, actor: Id, k: Keyed, now: int, later: int)
    requires Inv(s, now) && now <= later < now + AUTHORITY_RETENTION
    ensures var (t, r) := EnrollmentActivated(s, org, screen, grant, attempt, fingerprint, actor, k, now);
            r.Active? && !r.replayed ==>
              && BoundTo(t, r.credential, screen, attempt) && t.credentials[r.credential].key == fingerprint
              && EnrollmentActivated(t, org, screen, grant, attempt, fingerprint, actor, k, later).1
                 == Active(r.credential, true)
  {
    hide Inv, IsAdministrator, IssuerCurrent, HasKey, HasAnyCredential, FindRecord, KeptRecords, PrunedState, Selects,
         CancelledBy;
    var (t, r) := EnrollmentActivated(s, org, screen, grant, attempt, fingerprint, actor, k, now);
    if r.Active? && !r.replayed {
      var keep := Some(k.keyHash);
      var pruned := PrunedState(s, org, now, keep);
      PruningKeepsLive(s, org, now, keep, grant, attempt);
      PrunedRecords(s, org, now, keep);
      var u := Attached(pruned, screen, grant, attempt);
      NothingIsCancelled(u.attempts[attempt]);
      assert t.attempts[attempt] == u.attempts[attempt];
      var record :=
        EnrollmentRecord(ActivateRecord, org, k.keyHash, actor, k.request, now + AUTHORITY_RETENTION,
                         Some(r.credential));
      RecordKeptInPlace(s.records, org, now, keep, ActivateRecord, k.keyHash, record);
      assert t.records == KeptRecords(s.records, org, now, keep) + [record];
    }
  }

  lemma {:induction false} PrunedRecords(s: State, org: Id, now: int, keep: Option<Id>)
    ensures var t := PrunedState(s, org, now, keep);
            t.records == KeptRecords(s.records, org, now, keep) && t.users == s.users
  {
  }

  // ------------------------------------------------------------------ claiming

  /** A claimed code is spent: nothing that is pending carries it. */
  lemma {:induction false} ClaimedCodeIsSpent(s: State, code: Id, installation: Id, token: Id, now: int)
    requires Inv(s, now)
    ensures var (t, r) := PairingClaimed(s, code, installation, token, now);
            && (r.Some? ==>
                  && !CodeTaken(t.grants, code, now)
                  && r.value == |s.screens| < |t.screens| && t.screens[r.value].token == Some(token)
                     && !t.screens[r.value].deleted)
            && (r.None? ==> t == s && forall i | 0 <= i < |s.grants| && CodeInUse(s.grants[i], code, now) ::
                  s.grants[i].target.Some?)
  {
    hide OnePending, PrunedTogether, WonOnce, ProvedBounded, OutstandingBounded, DevicesSound, GrantsBehind,
         OriginsClaimed, IssuersCurrent, Shaped;
    var k := FindOpenCode(s.grants, code, now);
    var (t, r) := PairingClaimed(s, code, installation, token, now);
    if r.Some? {
      assert CodeLive(s.grants[k.value], now);
      assert forall i | 0 <= i < |s.grants| && i != k.value && CodeLive(s.grants[i], now) ::
               s.grants[i].codeHash != code;
    }
  }

  /** An issued attempt is outstanding, within its limit, and can be claimed by whoever presents its values. */
  lemma {:induction false} IssuedCanBeClaimed(s: State, q: ProofRequest, now: int, installation: Id)
    requires Inv(s, now)
    ensures var (t, r) := ProofIssued(s, q, now);
            r.Some? ==>
              && r.value < |t.attempts| && Outstanding(t.attempts[r.value], t.attempts[r.value].grant, q.key, now)
              && now < q.expiresAt <= now + MAX_PROOF_LIFETIME && q.key !in t.usedKeys
              && ClaimBegun(t, q.codeHash, r.value, q.hash, q.transcript, q.key, installation)
                 == Some(Claim(r.value, t.attempts[r.value].grant, installation))
  {
    hide Inv, IssuerCurrent, HasKey, HashSeen, OutstandingAttempts;
  }

  /** What the answer to a claim says about the store it leaves behind. */
  lemma {:induction false} ClaimAnswers(s: State, c: Claim, now: int)
    requires Inv(s, now) && c.attempt < |s.attempts| && c.grant < |s.grants| && s.attempts[c.attempt].grant == c.grant
    ensures var (t, r) := ClaimFinished(s, c, now);
            match r
            case Paired(credential, screen) =>
              && credential < |t.credentials| && t.credentials[credential].revokedAt.None?
                 && !t.credentials[credential].detached
              && t.credentials[credential].screen == screen
                 && HasScreen(t.screens, t.credentials[credential].org, screen)
            case PendingApproval =>
              && c.attempt < |t.attempts| && t.attempts[c.attempt].proved && c.grant < |t.grants|
                 && CodeLive(t.grants[c.grant], now)
              && t.grants[c.grant].target.Some?
                 && IssuerCurrent(t.users, t.grants[c.grant].org, t.grants[c.grant].target.value.issuer)
            case Invalid => t == s
  {
    hide IssuerCurrent, HasKey, ProvedAttempts, GrantsSound, GrantsBehind, OriginsClaimed, KeysBurnt, OneAttached,
         LiveBounded;
  }

  /** A claim repeated is answered alike and changes nothing, as long as the credential it was given is unexpired. */
  lemma {:induction false} ClaimIsIdempotent(s: State, c: Claim, now: int)
    requires Inv(s, now) && c.attempt < |s.attempts| && c.grant < |s.grants| && s.attempts[c.attempt].grant == c.grant
    ensures var (t, r) := ClaimFinished(s, c, now);
            && c.attempt < |t.attempts| && c.grant < |t.grants|
            && ((r.Paired? ==>
                   r.credential < |t.credentials| && Unexpired(t.credentials[r.credential].expiresAt, now)) ==>
                  ClaimFinished(t, c, now) == (t, r))
  {
    hide IssuerCurrent, HasKey, ProvedAttempts, GrantsSound, GrantsBehind, OriginsClaimed, DevicesSound;
    var (t, r) := ClaimFinished(s, c, now);
    if r.PendingApproval? && t != s && s.attempts[c.attempt].cancelled {
      SameProved(s.attempts, t.attempts, c.attempt, c.grant);
      assert t.attempts[c.attempt := t.attempts[c.attempt]] == t.attempts;
    }
  }

  lemma {:induction false} SameProved(as_: seq<Attempt>, bs: seq<Attempt>, k: nat, grant: Id)
    requires k < |as_| && as_[k].cancelled && |bs| == |as_| && bs[k].cancelled
    requires forall i | 0 <= i < |as_| && i != k :: bs[i] == as_[i]
    ensures ProvedAttempts(bs, grant) == ProvedAttempts(as_, grant)
  {
  }

  // ------------------------------------------------------------------ challenges and proofs

  /** An issued challenge can be answered, with the values it was issued for; the challenges alive before are alive. */
  lemma {:induction false} IssuedCanBeAnswered(s: State, i: Issue, now: int)
    requires Inv(s, now) && (i.credential.Some? ==> i.credential.value < |s.credentials|)
    ensures var (t, r) := IssueFinished(s, i, now);
            r.Some? ==>
              && i.credential.Some?
              && Matches(t, ProofInput(i.credential.value, r.value, i.r.hash, i.r.activity, i.r.request), now)
              && r.value in LiveChallenges(t.challenges, i.credential.value, i.r.activity, now)
              && now < i.r.expiresAt <= now + MAX_CHALLENGE_LIFETIME
              && forall c, activity ::
                   LiveChallenges(s.challenges, c, activity, now) <= LiveChallenges(t.challenges, c, activity, now)
  {
    hide Inv, ChallengeHashSeen, ChallengeFirst;
    var (t, r) := IssueFinished(s, i, now);
    if r.Some? {
      forall k | 0 <= k < |s.challenges| && s.challenges[k].expiresAt > now ensures t.challenges[k] == s.challenges[k] {
        assert !Old(s.challenges[k], now);
      }
    }
  }

  /** An accepted proof spends its challenge: it was open, and no proof will be accepted with it again. */
  lemma {:induction false} AcceptedIsSpent(s: State, p: Proof, now: int)
    ensures var (t, authenticated) := ProofFinished(s, p, now);
            && (authenticated ==>
                  && IsActive(s, p.input.credential, now) && Matches(s, p.input, now)
                  && p.input.challenge < |t.challenges| == |s.challenges|
                  && t.challenges[p.input.challenge].consumedAt == Some(now)
                  && (forall q: Proof, at | q.input.challenge == p.input.challenge :: !Accepts(t, q, at))
                  && (forall k | 0 <= k < |s.challenges| && k != p.input.challenge ::
                        t.challenges[k] == s.challenges[k]))
            && (!authenticated ==> t == s)
  {
    hide IsActive;
  }

  // ------------------------------------------------------------------ revoking

  /** A revocation leaves nothing attached to the screen and nothing pending for it. */
  lemma {:induction false} RevokedLeavesNothing(s: State, org: Id, screen: Id, actor: Id, now: int)
    requires Inv(s, now)
    ensures var (t, r) := CredentialRevoked(s, org, screen, actor, now);
            && (r.RevokedCredential? ==>
                  NoneAttached(t.credentials, screen) && NoneSelected(t.grants, TargetingIn(org, screen)))
            && (r.NotRevoked? ==> t == s)
  {
    hide RevokedGrants, CancelledAttempts, InvalidatedChallenges, IsAdministrator, HasPending, GrantsSound,
         GrantsBehind, OriginsClaimed, IssuersCurrent, LiveBounded, KeysBurnt, Selects;
    if HasScreen(s.screens, org, screen) {
      assert forall i | 0 <= i < |s.credentials| && s.credentials[i].screen == screen ::
               OfScreen(s.credentials[i], org, screen);
    }
    var c := CredentialToRevoke(s.credentials, org, screen);
    var (t, r) := CredentialRevoked(s, org, screen, actor, now);
    if r.RevokedCredential? {
      TargetingCoversBoth(s, TargetingIn(org, screen), org, screen, Unconsumed);
      if c.Some? {
        TargetingCoversBoth(Advanced(DetachedState(s, Single(c.value), now), screen), Targeting(screen), org, screen,
                            Unconsumed);
      }
    }
  }

  lemma {:induction false} TargetingCoversBoth(s: State, sel: Selector, org: Id, screen: Id, cancel: Cancel)
    requires sel == TargetingIn(org, screen) || sel == Targeting(screen)
    ensures NoneSelected(RevokedState(s, sel, cancel).grants, TargetingIn(org, screen))
  {
  }

  /** A deleted screen has nothing attached, nothing pending, and is found by no lookup. */
  lemma {:induction false} DeletedLeavesNothing(s: State, org: Id, screen: Id, actor: Id, now: int)
    requires Inv(s, now)
    ensures var (t, deleted) := ScreenDeleted(s, org, screen, actor, now);
            && (deleted ==>
                  NoneAttached(t.credentials, screen) && NoneSelected(t.grants, Targeting(screen))
                  && !HasScreen(t.screens, org, screen))
            && (!deleted ==> t == s)
  {
    hide InvalidatedChallenges, CancelledAttempts, IsAdministrator, GrantsSound, GrantsBehind, OriginsClaimed,
         IssuersCurrent, LiveBounded, KeysBurnt;
    if HasScreen(s.screens, org, screen) {
      assert forall i | 0 <= i < |s.credentials| && s.credentials[i].screen == screen ::
               OfScreen(s.credentials[i], org, screen);
    }
  }
}
