/** What claims, challenges and proofs come to, case by case, in terms of the stored fields alone. */
module DeviceProofs {
  import opened Common
  import opened Devices
  import opened DeviceInvariants
  import opened DeviceSteps
  import opened DeviceEffects
  import opened Authority
  import Identity

  // ------------------------------------------------------------------ open codes

  /** What the claim of an open code with a token comes to. */
  ghost predicate OpenClaimDecided(s: State, t: State, r: Option<Id>, code: Id, installation: Id, token: Id, now: int) {
    if forall k: nat :: !(LiveCode(s.grants, k, code, now) && s.grants[k].target == None) then t == s && r == None
    else
      && r == Some(|s.screens|)
      && exists k: nat ::
           && LiveCode(s.grants, k, code, now) && s.grants[k].target == None
           && t == s.(screens :=
                        s.screens + [Screen(s.grants[k].org, 0, Some(installation), Some(token), Some(k), false)],
                      grants := s.grants[k := s.grants[k].(status := Claimed, screen := Some(|s.screens|))])
  }

  lemma {:induction false} OpenClaimDecides(s: State, code: Id, installation: Id, token: Id, now: int)
    ensures var (t, r) := PairingClaimed(s, code, installation, token, now);
            OpenClaimDecided(s, t, r, code, installation, token, now)
  {
    var k := FindOpenCode(s.grants, code, now);
    if k.Some? {
      assert LiveCode(s.grants, k.value, code, now);
    } else {
      forall i: nat ensures !(LiveCode(s.grants, i, code, now) && s.grants[i].target == None) {
        if LiveCode(s.grants, i, code, now) { assert CodeInUse(s.grants[i], code, now); }
      }
    }
  }

  // ------------------------------------------------------------------ proof requests

  ghost function OpenAttempts(attempts: seq<Attempt>, grant: Id, key: Id, now: int): set<nat> {
    set k: nat | k < |attempts| && !attempts[k].pruned && attempts[k].grant == grant && attempts[k].key == key
                 && !attempts[k].consumed && now < attempts[k].expiresAt
  }

  /** The grant of the code can be proved for: its issuer, if it has one, stands behind it, and there is room. */
  ghost predicate MayProve(s: State, k: nat, q: ProofRequest, now: int) {
    && LiveCode(s.grants, k, q.codeHash, now)
    && (s.grants[k].target.Some? ==> StandsBehind(s.users, s.grants[k].org, s.grants[k].target.value.issuer))
    && now < q.expiresAt <= now + 45_000
    && !KeySpent(s.credentials, q.key)
    && (forall j: nat | j < |s.attempts| && !s.attempts[j].pruned :: s.attempts[j].hash != q.hash)
    && |OpenAttempts(s.attempts, k, q.key, now)| < 4
  }

  ghost predicate ProofIssueDecided(s: State, t: State, r: Option<Id>, q: ProofRequest, now: int) {
    if forall k: nat :: !MayProve(s, k, q, now) then t == s && r == None
    else
      && r == Some(|s.attempts|)
      && exists k: nat ::
           && MayProve(s, k, q, now)
           && t == s.(attempts := s.attempts + [Attempt(s.grants[k].org, k, q.key, q.credentialExpiresAt, q.hash,
                q.transcript, q.expiresAt, None, false, false, false, false, None, false)])
  }

  lemma {:induction false} LiveCodeIsFound(s: State, code: Id, now: int)
    requires Inv(s, now)
    ensures var k := FindCode(s.grants, code, now);
            && (k.Some? ==> forall i: nat :: LiveCode(s.grants, i, code, now) <==> i == k.value)
            && (k.None? ==> forall i: nat :: !LiveCode(s.grants, i, code, now))
  {
    hide DevicesSound, GrantsBehind, OriginsClaimed, IssuersCurrent, Shaped, WonOnce, ProvedBounded, OutstandingBounded,
         OnePending, PrunedTogether;
    var k := FindCode(s.grants, code, now);
    forall i: nat | LiveCode(s.grants, i, code, now) ensures k.Some? && i == k.value {
      assert CodeInUse(s.grants[i], code, now) && CodeLive(s.grants[i], now);
      if k.Some? { assert CodeInUse(s.grants[k.value], code, now) && CodeLive(s.grants[k.value], now); }
    }
  }

  lemma {:induction false} HashesSeen(attempts: seq<Attempt>, hash: Id)
    ensures HashSeen(attempts, hash) <==>
              !forall j: nat | j < |attempts| && !attempts[j].pruned :: attempts[j].hash != hash
  {
  }

  /** In a sound store a proof request is answered exactly as listed. */
  lemma {:induction false} ProofIssueDecides(s: State, q: ProofRequest, now: int)
    requires Inv(s, now)
    ensures var (t, r) := ProofIssued(s, q, now); ProofIssueDecided(s, t, r, q, now)
  {
    hide Inv, FindCode, IssuerCurrent, StandsBehind, HasKey, KeySpent, HashSeen, OutstandingAttempts, OpenAttempts;
    LiveCodeIsFound(s, q.codeHash, now);
    KeyIsSpent(s.credentials, q.key);
    SpentMeansUsed(s, q.key, now);
    HashesSeen(s.attempts, q.hash);
    var k := FindCode(s.grants, q.codeHash, now);
    if k.Some? {
      assert LiveCode(s.grants, k.value, q.codeHash, now);
      if s.grants[k.value].target.Some? {
        IssuerStands(s.users, s.grants[k.value].org, s.grants[k.value].target.value.issuer);
      }
      OutstandingAreOpen(s.attempts, k.value, q.key, now);
      assert MayProve(s, k.value, q, now) <==> ProofIssued(s, q, now).1.Some?;
    }
  }

  lemma {:induction false} OutstandingAreOpen(attempts: seq<Attempt>, grant: Id, key: Id, now: int)
    ensures OutstandingAttempts(attempts, grant, key, now) == OpenAttempts(attempts, grant, key, now)
  {
  }

  // ------------------------------------------------------------------ claims

  /** A claim goes on exactly when it names a stored attempt with its values and the code of its grant. */
  lemma {:induction false} ClaimBeginsExactly(
      s: State, codeHash: Id, attempt: Id, hash: Id, transcript: Id, key: Id, installation: Id, c: Claim)
    ensures ClaimBegun(s, codeHash, attempt, hash, transcript, key, installation) == Some(c) <==>
              && c.attempt == attempt && c.installation == installation
              && attempt < |s.attempts| && !s.attempts[attempt].pruned && c.grant == s.attempts[attempt].grant
              && s.attempts[attempt].hash == hash && s.attempts[attempt].transcript == transcript
              && s.attempts[attempt].key == key
              && c.grant < |s.grants| && !s.grants[c.grant].pruned && s.grants[c.grant].codeHash == codeHash
              && s.grants[c.grant].org == s.attempts[attempt].org
  {
  }

  ghost function ProvedOf(attempts: seq<Attempt>, grant: Id): set<nat> {
    set k: nat | k < |attempts| && !attempts[k].pruned && attempts[k].grant == grant && attempts[k].proved
                 && !attempts[k].cancelled
  }

  /** The attempt and its pending grant have time left, and no credential ever had the key. */
  ghost predicate InTime(s: State, c: Claim, now: int)
    requires c.attempt < |s.attempts| && c.grant < |s.grants|
  {
    && now < s.attempts[c.attempt].expiresAt && now < s.grants[c.grant].expiresAt && s.grants[c.grant].status == Pending
    && !KeySpent(s.credentials, s.attempts[c.attempt].key)
  }

  /**
   The grant is for a screen, its issuer stands behind it, and fewer than four attempts of it have
   proved themselves.
   */
  ghost predicate MayBeProved(s: State, c: Claim)
    requires c.grant < |s.grants| && s.grants[c.grant].target.Some?
  {
    && StandsBehind(s.users, s.grants[c.grant].org, s.grants[c.grant].target.value.issuer)
    && |ProvedOf(s.attempts, c.grant)| < 4
  }

  /** A new screen with a new credential of the attempt's key, by the open grant, which is spent. */
  ghost predicate PairsAnew(s: State, t: State, c: Claim)
    requires c.attempt < |s.attempts| && c.grant < |s.grants|
  {
    var a, g := s.attempts[c.attempt], s.grants[c.grant];
    t == s.(screens := s.screens + [Screen(g.org, 0, Some(c.installation), None, Some(c.grant), false)],
            credentials := s.credentials + [Credential(g.org, |s.screens|, a.key, a.credentialExpiresAt, false, None)],
            usedKeys := s.usedKeys + {a.key},
            grants := s.grants[c.grant := g.(status := Claimed, screen := Some(|s.screens|))],
            attempts := s.attempts[c.attempt := a.(consumed := true, bound := Some(|s.credentials|))])
  }

  /** What a claim comes to once its proof has been verified. */
  ghost predicate ClaimDecided(s: State, t: State, r: Pairing, c: Claim, now: int)
    requires c.attempt < |s.attempts| && c.grant < |s.grants|
  {
    var a, g := s.attempts[c.attempt], s.grants[c.grant];
    if (a.consumed || a.activated) && a.bound.Some? then
      && t == s
      && var b := a.bound.value;
         if && b < |s.credentials| && s.credentials[b].revokedAt == None && Unended(s.credentials[b].expiresAt, now)
            && StoredScreen(s.screens, s.credentials[b].org, s.credentials[b].screen)
         then r == Paired(b, s.credentials[b].screen) else r == Invalid
    else if g.target.Some? && a.proved && !a.cancelled && g.status == Pending && now < g.expiresAt then
      t == s && r == PendingApproval
    else if !InTime(s, c, now) then t == s && r == Invalid
    else if g.target == None then PairsAnew(s, t, c) && r == Paired(|s.credentials|, |s.screens|)
    else if !MayBeProved(s, c) then t == s && r == Invalid
    else
      && t == s.(attempts := s.attempts[c.attempt := a.(proved := true, installation := Some(c.installation))])
      && r == PendingApproval
  }

  lemma {:induction false} ProvedAreSame(attempts: seq<Attempt>, grant: Id)
    ensures ProvedAttempts(attempts, grant) == ProvedOf(attempts, grant)
  {
  }

  /** A verified claim is answered exactly as listed. */
  lemma {:induction false} ClaimDecides(s: State, c: Claim, now: int)
    requires c.attempt < |s.attempts| && c.grant < |s.grants|
    ensures var (t, r) := ClaimFinished(s, c, now); ClaimDecided(s, t, r, c, now)
  {
    hide IssuerCurrent, StandsBehind, HasKey, KeySpent, ProvedAttempts, ProvedOf;
    KeyIsSpent(s.credentials, s.attempts[c.attempt].key);
    ProvedAreSame(s.attempts, c.grant);
    var g := s.grants[c.grant];
    if g.target.Some? { IssuerStands(s.users, g.org, g.target.value.issuer); }
  }

  /**
   In a sound store a verified claim of an attempt that has not proved itself pairs a new screen or
   leaves the attempt waiting for approval exactly when the attempt and its pending grant have time
   left, the key is new and, for a chosen screen, the issuer stands behind the grant and fewer than
   four attempts of it have proved themselves.
   */
  lemma {:induction false} ClaimTakesEffectExactly(s: State, c: Claim, now: int)
    requires Inv(s, now) && c.attempt < |s.attempts| && c.grant < |s.grants| && s.attempts[c.attempt].grant == c.grant
    requires !s.attempts[c.attempt].proved
    ensures var (t, r) := ClaimFinished(s, c, now);
            (r.PendingApproval? || (r.Paired? && r.credential == |s.credentials|)) <==>
              InTime(s, c, now) && (s.grants[c.grant].target.Some? ==> MayBeProved(s, c))
  {
    hide ClaimFinished, StandsBehind, KeySpent, ProvedOf, DevicesSound, GrantsBehind, OriginsClaimed, IssuersCurrent,
         CodesDistinct, ProvedBounded, OutstandingBounded, OnePending, PrunedTogether, Shaped;
    ClaimDecides(s, c, now);
  }

  // ------------------------------------------------------------------ challenges

  /** The request for a challenge authenticates exactly the credential of the screen and key that can authenticate. */
  lemma {:induction false} IssueBeginsExactly(s: State, q: ChallengeRequest, now: int, c: Id)
    requires Inv(s, now)
    ensures IssueBegun(s, q, now).r == q
    ensures IssueBegun(s, q, now).credential == Some(c) <==>
              && c < |s.credentials| && s.credentials[c].screen == q.screen && s.credentials[c].key == q.key
              && CanAuthenticate(s, c, now)
  {
    hide GrantsSound, GrantsBehind, OriginsClaimed, IssuersCurrent, Shaped, LiveBounded, OneAttached, RevokedTogether;
    ActiveCanAuthenticate(s, c, now);
    var k := FindKeyed(s.credentials, q.screen, q.key);
    if k.Some? && c < |s.credentials| && s.credentials[c].key == s.credentials[k.value].key {
      SameKeySameCredential(s.credentials, s.usedKeys, c, k.value);
    }
  }

  lemma {:induction false} SameKeySameCredential(credentials: seq<Credential>, used: set<Id>, i: nat, j: nat)
    requires KeysBurnt(credentials, used) && i < |credentials| && j < |credentials|
    requires credentials[i].key == credentials[j].key
    ensures i == j
  {
  }

  lemma {:induction false} ActiveCanAuthenticate(s: State, c: Id, now: int)
    ensures IsActive(s, c, now) <==> CanAuthenticate(s, c, now)
  {
  }

  ghost function OpenChallenges(challenges: seq<Challenge>, credential: Id, activity: Activity, now: int): set<nat> {
    set k: nat | k < |challenges| && !challenges[k].pruned && challenges[k].credential == credential
                 && challenges[k].activity == activity && challenges[k].consumedAt == None
                 && now < challenges[k].expiresAt
  }

  /**
   A challenge is issued to an authenticated credential for at most a minute, with a new hash, while
   there is room.
   */
  ghost predicate MayIssue(s: State, i: Issue, now: int) {
    && i.credential.Some? && now < i.r.expiresAt <= now + 60_000
    && (forall j: nat | j < |s.challenges| && !s.challenges[j].pruned :: s.challenges[j].hash != i.r.hash)
    && |OpenChallenges(s.challenges, i.credential.value, i.r.activity, now)| < 4
  }

  ghost predicate IssueDecided(s: State, t: State, r: Option<Id>, i: Issue, now: int)
    requires i.credential.Some? ==> i.credential.value < |s.credentials|
  {
    if !MayIssue(s, i, now) then t == s && r == None
    else
      && r == Some(|s.challenges|)
      && t == s.(challenges := t.challenges) && |t.challenges| == |s.challenges| + 1
      && FirstDropped(s.challenges, t.challenges[..|s.challenges|], now)
      && t.challenges[|s.challenges|]
         == Challenge(s.credentials[i.credential.value].org, i.credential.value, i.r.hash, i.r.activity, i.r.request,
                      i.r.expiresAt, None, false)
  }

  /** The second half of an issue is answered exactly as listed. */
  lemma {:induction false} IssueDecides(s: State, i: Issue, now: int)
    requires i.credential.Some? ==> i.credential.value < |s.credentials|
    ensures var (t, r) := IssueFinished(s, i, now); IssueDecided(s, t, r, i, now)
  {
    hide ChallengeHashSeen, LiveChallenges, OpenChallenges, KeptChallenges, FirstDropped;
    ChallengeHashes(s.challenges, i.r.hash);
    FirstAreDropped(s.challenges, now);
    if i.credential.Some? {
      LiveAreOpen(s.challenges, i.credential.value, i.r.activity, now);
      var t := IssueFinished(s, i, now).0;
      if MayIssue(s, i, now) { assert t.challenges[..|s.challenges|] == KeptChallenges(s.challenges, now); }
    }
  }

  lemma {:induction false} LiveAreOpen(challenges: seq<Challenge>, credential: Id, activity: Activity, now: int)
    ensures LiveChallenges(challenges, credential, activity, now)
            == OpenChallenges(challenges, credential, activity, now)
  {
  }

  lemma {:induction false} ChallengeHashes(challenges: seq<Challenge>, hash: Id)
    ensures ChallengeHashSeen(challenges, hash)
            <==> !forall j: nat | j < |challenges| && !challenges[j].pruned :: challenges[j].hash != hash
  {
  }

  // ------------------------------------------------------------------ proofs

  /** The challenge is stored, open, and was issued for this credential, hash, activity and request. */
  ghost predicate Answers(s: State, p: ProofInput, now: int) {
    && p.credential < |s.credentials| && p.challenge < |s.challenges|
    && var c := s.challenges[p.challenge];
       && !c.pruned && c.consumedAt == None && now < c.expiresAt
       && c.credential == p.credential && c.org == s.credentials[p.credential].org
       && c.hash == p.hash && c.activity == p.activity && c.request == p.request
  }

  ghost predicate AtGeneration(s: State, p: ProofInput, generation: nat) {
    && p.credential < |s.credentials| && s.credentials[p.credential].screen < |s.screens|
    && s.screens[s.credentials[p.credential].screen].generation == generation
  }

  /**
   A proof begins exactly with an open challenge of a credential that can authenticate, at its screen's
   generation.
   */
  lemma {:induction false} ProofBeginsExactly(s: State, p: ProofInput, now: int, q: Proof)
    ensures ProofBegun(s, p, now) == Some(q) <==>
              CanAuthenticate(s, p.credential, now) && Answers(s, p, now) && q.input == p
              && AtGeneration(s, p, q.generation)
  {
  }

  ghost predicate ConsumptionDecided(s: State, t: State, authenticated: bool, p: Proof, now: int) {
    && (authenticated <==>
          && CanAuthenticate(s, p.input.credential, now) && Answers(s, p.input, now)
          && AtGeneration(s, p.input, p.generation))
    && if authenticated then
         p.input.challenge < |s.challenges|
         && t == s.(challenges :=
                      s.challenges[p.input.challenge := s.challenges[p.input.challenge].(consumedAt := Some(now))])
       else t == s
  }

  /**
   A verified proof authenticates exactly when its credential can authenticate, its challenge is
   stored, open and issued for it, and the generation is the one it began at; it then consumes the
   challenge and changes nothing else.
   */
  lemma {:induction false} ConsumptionDecides(s: State, p: Proof, now: int)
    ensures var (t, authenticated) := ProofFinished(s, p, now); ConsumptionDecided(s, t, authenticated, p, now)
  {
  }
}
