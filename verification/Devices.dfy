/**
 Device enrollment and credentials of the memory store (apps/api/src/store/memory.ts).

 Records are never dropped from the model: a record removed by the store carries a flag that hides it
 from every lookup, because a request suspended at an `await` may still hold a reference to it. The id
 of a record is its position.
 */
module Devices {
  import opened Common
  import Identity

  type Id = nat

  const CHALLENGE_RETENTION := 86_400_000
  const AUTHORITY_RETENTION := 30 * 86_400_000
  const GRANT_LIFETIME := 600_000
  const MAX_PROOF_LIFETIME := 45_000
  const MAX_CHALLENGE_LIFETIME := 60_000
  const BATCH := 100
  const LIMIT := 4

  /** `origin` is the grant a screen was made through; it is kept for the statements only. */
  datatype Screen = Screen(
    org: Id, generation: nat, installation: Option<Id>, token: Option<Id>, origin: Option<Id>, deleted: bool)

  datatype Credential = Credential(
    org: Id, screen: Id, key: Id, expiresAt: Option<int>, detached: bool, revokedAt: Option<int>)

  datatype Activity = Heartbeat | Manifest

  datatype Challenge = Challenge(
    org: Id, credential: Id, hash: Id, activity: Activity, request: Id, expiresAt: int, consumedAt: Option<int>,
    pruned: bool)

  datatype Status = Pending | Claimed | Revoked | Expired

  datatype Purpose = Enroll | Reenroll

  datatype Issuer = Issuer(user: Id, membership: Id, authentication: nat, authorization: nat)

  datatype Target = Target(purpose: Purpose, screen: Id, expectedGeneration: nat, issuer: Issuer)

  /** A pairing grant: for one screen, or for whoever presents its code. */
  datatype Grant = Grant(
    org: Id, codeHash: Id, expiresAt: int, status: Status, target: Option<Target>, screen: Option<Id>, pruned: bool)

  datatype Attempt = Attempt(
    org: Id, grant: Id, key: Id, credentialExpiresAt: Option<int>, hash: Id, transcript: Id, expiresAt: int,
    installation: Option<Id>, proved: bool, consumed: bool, activated: bool, cancelled: bool, bound: Option<Id>,
    pruned: bool)

  datatype RecordKind = CreateRecord | ActivateRecord

  datatype EnrollmentRecord = EnrollmentRecord(
    kind: RecordKind, org: Id, keyHash: Id, actor: Id, request: Id, expiresAt: int, response: Option<Id>)

  datatype State = State(
    users: seq<Identity.User>, screens: seq<Screen>, credentials: seq<Credential>, challenges: seq<Challenge>,
    grants: seq<Grant>, attempts: seq<Attempt>, usedKeys: set<Id>, records: seq<EnrollmentRecord>)

  // ------------------------------------------------------------------ lookups

  function FirstWhere<T>(s: seq<T>, p: T -> bool): (k: Option<nat>)
    ensures k.Some? ==> k.value < |s| && p(s[k.value]) && forall i | 0 <= i < k.value :: !p(s[i])
    ensures k.None? ==> forall i | 0 <= i < |s| :: !p(s[i])
  {
    if s == [] then None
    else if p(s[0]) then Some(0)
    else
      var rest := FirstWhere(s[1..], p);
      if rest.None? then None else Some(rest.value + 1)
  }

  predicate IsAdministrator(users: seq<Identity.User>, org: Id, user: Id) {
    var u := Identity.FindActive(users, user, org);
    u.Some? && (u.value.role == Identity.Owner || u.value.role == Identity.Admin)
  }

  /** The issuer is still an active administrator, in the membership and epochs the grant was issued under. */
  predicate IssuerCurrent(users: seq<Identity.User>, org: Id, i: Issuer) {
    && IsAdministrator(users, org, i.user)
    && var u := Identity.FindActive(users, i.user, org).value;
       u.membership == i.membership && u.authenticationEpoch == i.authentication
       && u.authorizationEpoch == i.authorization
  }

  function IssuerOf(users: seq<Identity.User>, org: Id, user: Id): Issuer
    requires IsAdministrator(users, org, user)
  {
    var u := Identity.FindActive(users, user, org).value;
    Issuer(u.id, u.membership, u.authenticationEpoch, u.authorizationEpoch)
  }

  predicate HasScreen(screens: seq<Screen>, org: Id, id: Id) {
    id < |screens| && !screens[id].deleted && screens[id].org == org
  }

  predicate CodeInUse(g: Grant, code: Id, now: int) {
    !g.pruned && g.status.Pending? && g.codeHash == code && g.expiresAt > now
  }

  predicate CodeTaken(grants: seq<Grant>, code: Id, now: int) {
    exists k :: 0 <= k < |grants| && CodeInUse(grants[k], code, now)
  }

  function FindCode(grants: seq<Grant>, code: Id, now: int): Option<nat> {
    FirstWhere(grants, (g: Grant) => CodeInUse(g, code, now))
  }

  function FindOpenCode(grants: seq<Grant>, code: Id, now: int): Option<nat> {
    FirstWhere(grants, (g: Grant) => CodeInUse(g, code, now) && g.target.None?)
  }

  predicate OfScreen(c: Credential, org: Id, screen: Id) { c.org == org && c.screen == screen }

  function FindAttached(credentials: seq<Credential>, org: Id, screen: Id): Option<nat> {
    FirstWhere(credentials, (c: Credential) => OfScreen(c, org, screen) && !c.detached)
  }

  function FindRevoked(credentials: seq<Credential>, org: Id, screen: Id): Option<nat> {
    FirstWhere(credentials, (c: Credential) => OfScreen(c, org, screen) && c.revokedAt.Some?)
  }

  function FindKeyed(credentials: seq<Credential>, screen: Id, key: Id): Option<nat> {
    FirstWhere(credentials, (c: Credential) => c.screen == screen && c.key == key)
  }

  predicate HasAnyCredential(credentials: seq<Credential>, org: Id, screen: Id) {
    exists k :: 0 <= k < |credentials| && OfScreen(credentials[k], org, screen)
  }

  predicate HasKey(credentials: seq<Credential>, key: Id) {
    exists k :: 0 <= k < |credentials| && credentials[k].key == key
  }

  function FindRecord(records: seq<EnrollmentRecord>, kind: RecordKind, org: Id, key: Id): Option<nat> {
    FirstWhere(records, (r: EnrollmentRecord) => r.kind == kind && r.org == org && r.keyHash == key)
  }

  predicate Unexpired(expiresAt: Option<int>, now: int) { expiresAt.Some? ==> expiresAt.value > now }

  /** The credential can authenticate: attached, unrevoked, unexpired, on a screen that exists. */
  predicate IsActive(s: State, c: Id, now: int) {
    && c < |s.credentials|
    && var k := s.credentials[c];
       !k.detached && k.revokedAt.None? && Unexpired(k.expiresAt, now) && HasScreen(s.screens, k.org, k.screen)
  }

  // ------------------------------------------------------------------ revoking grants

  datatype Selector =
    | Targeting(screen: Id)
    | TargetingIn(org: Id, screen: Id)
    | EnrollingIn(org: Id, screen: Id)
    | IssuedBy(user: Id, orgs: set<Id>)
    | Only(grant: Id)

  /** Which attempts of a revoked grant are cancelled. */
  datatype Cancel = Unbound | Unconsumed | Nothing

  predicate Selects(sel: Selector, i: nat, g: Grant) {
    && g.status.Pending? && !g.pruned
    && match sel
       case Targeting(screen) => g.target.Some? && g.target.value.screen == screen
       case TargetingIn(org, screen) => g.org == org && g.target.Some? && g.target.value.screen == screen
       case EnrollingIn(org, screen) =>
         g.org == org && g.target.Some? && g.target.value.screen == screen && g.target.value.purpose.Enroll?
       case IssuedBy(user, orgs) => g.org in orgs && g.target.Some? && g.target.value.issuer.user == user
       case Only(grant) => i == grant
  }

  predicate CancelledBy(cancel: Cancel, a: Attempt) {
    match cancel case Unbound => a.bound.None? case Unconsumed => !a.consumed case Nothing => false
  }

  function RevokedGrants(grants: seq<Grant>, sel: Selector): (r: seq<Grant>)
    ensures |r| == |grants|
    ensures forall i | 0 <= i < |grants| ::
              r[i] == if Selects(sel, i, grants[i]) then grants[i].(status := Revoked) else grants[i]
  {
    seq(|grants|,
        i requires 0 <= i < |grants| => if Selects(sel, i, grants[i]) then grants[i].(status := Revoked) else grants[i])
  }

  predicate LosesGrant(grants: seq<Grant>, sel: Selector, cancel: Cancel, a: Attempt) {
    !a.pruned && a.grant < |grants| && Selects(sel, a.grant, grants[a.grant]) && CancelledBy(cancel, a)
  }

  function CancelledAttempts(
      attempts: seq<Attempt>, grants: seq<Grant>, sel: Selector, cancel: Cancel): (r: seq<Attempt>)
    ensures |r| == |attempts|
    ensures forall i | 0 <= i < |attempts| ::
              r[i] == if LosesGrant(grants, sel, cancel, attempts[i]) then attempts[i].(cancelled := true)
                      else attempts[i]
  {
    seq(|attempts|, i requires 0 <= i < |attempts| =>
      if LosesGrant(grants, sel, cancel, attempts[i]) then attempts[i].(cancelled := true) else attempts[i])
  }

  function RevokedState(s: State, sel: Selector, cancel: Cancel): State {
    s.(grants := RevokedGrants(s.grants, sel), attempts := CancelledAttempts(s.attempts, s.grants, sel, cancel))
  }

  // ------------------------------------------------------------------ detaching credentials

  datatype Picked = AttachedTo(org: Id, screen: Id) | EverOn(org: Id, screen: Id) | Single(credential: Id)

  predicate Picks(p: Picked, i: nat, c: Credential) {
    match p
    case AttachedTo(org, screen) => OfScreen(c, org, screen) && !c.detached
    case EverOn(org, screen) => OfScreen(c, org, screen)
    case Single(credential) => i == credential
  }

  function DetachedCredential(c: Credential, now: int): Credential {
    c.(detached := true, revokedAt := if c.revokedAt.Some? then c.revokedAt else Some(now))
  }

  function DetachedCredentials(credentials: seq<Credential>, p: Picked, now: int): (r: seq<Credential>)
    ensures |r| == |credentials|
    ensures forall i | 0 <= i < |credentials| ::
              r[i] == if Picks(p, i, credentials[i]) then DetachedCredential(credentials[i], now) else credentials[i]
  {
    seq(|credentials|, i requires 0 <= i < |credentials| =>
      if Picks(p, i, credentials[i]) then DetachedCredential(credentials[i], now) else credentials[i])
  }

  predicate Invalidated(credentials: seq<Credential>, p: Picked, c: Challenge, now: int) {
    && !c.pruned && c.consumedAt.None? && c.expiresAt > now
    && c.credential < |credentials| && Picks(p, c.credential, credentials[c.credential])
  }

  function InvalidatedChallenges(
      challenges: seq<Challenge>, credentials: seq<Credential>, p: Picked, now: int): (r: seq<Challenge>)
    ensures |r| == |challenges|
    ensures forall i | 0 <= i < |challenges| ::
              r[i] == if Invalidated(credentials, p, challenges[i], now) then challenges[i].(consumedAt := Some(now))
                      else challenges[i]
  {
    seq(|challenges|, i requires 0 <= i < |challenges| =>
      if Invalidated(credentials, p, challenges[i], now) then challenges[i].(consumedAt := Some(now))
      else challenges[i])
  }

  function DetachedState(s: State, p: Picked, now: int): State {
    s.(credentials := DetachedCredentials(s.credentials, p, now),
       challenges := InvalidatedChallenges(s.challenges, s.credentials, p, now))
  }

  // ------------------------------------------------------------------ pruning

  predicate Expirable(g: Grant, org: Id, now: int) {
    !g.pruned && g.org == org && g.status.Pending? && g.expiresAt <= now
  }

  predicate Removable(g: Grant, org: Id, now: int) {
    !g.pruned && g.org == org && !g.status.Pending? && g.expiresAt <= now - AUTHORITY_RETENTION
  }

  predicate ExpiresFirst(grants: seq<Grant>, i: nat, j: nat)
    requires i < |grants| && j < |grants|
  {
    grants[i].expiresAt < grants[j].expiresAt || (grants[i].expiresAt == grants[j].expiresAt && i < j)
  }

  /** The grant is in the batch of expired pending grants. */
  predicate ExpiresNow(grants: seq<Grant>, org: Id, now: int, i: nat)
    requires i < |grants|
  {
    && Expirable(grants[i], org, now)
    && |set j | 0 <= j < |grants| && Expirable(grants[j], org, now) && ExpiresFirst(grants, j, i)| < BATCH
  }

  function ExpiredGrants(grants: seq<Grant>, org: Id, now: int): (r: seq<Grant>)
    ensures |r| == |grants|
    ensures forall i | 0 <= i < |grants| ::
              r[i] == if ExpiresNow(grants, org, now, i) then grants[i].(status := Expired) else grants[i]
  {
    seq(|grants|, i requires 0 <= i < |grants| =>
      if ExpiresNow(grants, org, now, i) then grants[i].(status := Expired) else grants[i])
  }

  predicate RemovedNow(grants: seq<Grant>, org: Id, now: int, i: nat)
    requires i < |grants|
  {
    && Removable(grants[i], org, now)
    && |set j | 0 <= j < |grants| && Removable(grants[j], org, now) && ExpiresFirst(grants, j, i)| < BATCH
  }

  function KeptGrants(grants: seq<Grant>, org: Id, now: int): (r: seq<Grant>)
    ensures |r| == |grants|
    ensures forall i | 0 <= i < |grants| ::
              r[i] == if RemovedNow(grants, org, now, i) then grants[i].(pruned := true) else grants[i]
  {
    seq(|grants|, i requires 0 <= i < |grants| =>
      if RemovedNow(grants, org, now, i) then grants[i].(pruned := true) else grants[i])
  }

  predicate LosesRecord(grants: seq<Grant>, org: Id, now: int, a: Attempt) {
    a.grant < |grants| && RemovedNow(grants, org, now, a.grant)
  }

  function KeptAttempts(attempts: seq<Attempt>, grants: seq<Grant>, org: Id, now: int): (r: seq<Attempt>)
    ensures |r| == |attempts|
    ensures forall i | 0 <= i < |attempts| ::
              r[i] == if LosesRecord(grants, org, now, attempts[i]) then attempts[i].(pruned := true) else attempts[i]
  {
    seq(|attempts|, i requires 0 <= i < |attempts| =>
      if LosesRecord(grants, org, now, attempts[i]) then attempts[i].(pruned := true) else attempts[i])
  }

  predicate Forgettable(r: EnrollmentRecord, org: Id, now: int, keep: Option<Id>) {
    r.org == org && Some(r.keyHash) != keep && r.response.Some? && r.expiresAt <= now
  }

  predicate RecordFirst(records: seq<EnrollmentRecord>, i: nat, j: nat)
    requires i < |records| && j < |records|
  {
    var r, o := records[i], records[j];
    || r.expiresAt < o.expiresAt
    || (r.expiresAt == o.expiresAt && (r.keyHash < o.keyHash || (r.keyHash == o.keyHash && i < j)))
  }

  predicate ForgottenNow(records: seq<EnrollmentRecord>, org: Id, now: int, keep: Option<Id>, i: nat)
    requires i < |records|
  {
    && Forgettable(records[i], org, now, keep)
    && |set j | 0 <= j < |records| && Forgettable(records[j], org, now, keep) && RecordFirst(records, j, i)| < BATCH
  }

  function KeptRecords(records: seq<EnrollmentRecord>, org: Id, now: int, keep: Option<Id>): (r: seq<EnrollmentRecord>)
    ensures |r| == |records|
    ensures forall i | 0 <= i < |records| ::
              r[i] == if ForgottenNow(records, org, now, keep, i) then records[i].(response := None) else records[i]
  {
    seq(|records|, i requires 0 <= i < |records| =>
      if ForgottenNow(records, org, now, keep, i) then records[i].(response := None) else records[i])
  }

  function PrunedState(s: State, org: Id, now: int, keep: Option<Id>): State {
    var expired := ExpiredGrants(s.grants, org, now);
    s.(grants := KeptGrants(expired, org, now),
       attempts := KeptAttempts(s.attempts, expired, org, now),
       records := KeptRecords(s.records, org, now, keep))
  }

  // ------------------------------------------------------------------ making grants

  datatype Made = Made(grant: Id, replayed: bool) | NotMade(reason: MakeRefusal)

  datatype MakeRefusal = MakeForbidden | TargetNotFound | CodeCollision | NotEligible | MakeKeyReused | MakeKeyExpired

  predicate SameCodeExpired(g: Grant, code: Id, now: int) {
    !g.pruned && g.codeHash == code && g.status.Pending? && g.expiresAt <= now
  }

  function ExpiredCode(grants: seq<Grant>, code: Id, now: int): (r: seq<Grant>)
    ensures |r| == |grants|
    ensures forall i | 0 <= i < |grants| ::
              r[i] == if SameCodeExpired(grants[i], code, now) then grants[i].(status := Expired) else grants[i]
  {
    seq(|grants|, i requires 0 <= i < |grants| =>
      if SameCodeExpired(grants[i], code, now) then grants[i].(status := Expired) else grants[i])
  }

  function OpenGrant(org: Id, code: Id, expiresAt: int): Grant {
    Grant(org, code, expiresAt, Pending, None, None, false)
  }

  function PairingCreated(s: State, org: Id, code: Id, expiresAt: int, actor: Id, now: int): (State, Made) {
    if !IsAdministrator(s.users, org, actor) then (s, NotMade(MakeForbidden))
    else if CodeTaken(s.grants, code, now) then (s, NotMade(CodeCollision))
    else (s.(grants := ExpiredCode(s.grants, code, now) + [OpenGrant(org, code, expiresAt)]), Made(|s.grants|, false))
  }

  function TargetedGrant(
      org: Id, code: Id, expiresAt: int, purpose: Purpose, screen: Id, generation: nat, issuer: Issuer): Grant
  {
    Grant(org, code, expiresAt, Pending, Some(Target(purpose, screen, generation, issuer)), None, false)
  }

  /** A screen that has to enroll anew: its generation moves on and its token is gone. */
  function Advanced(s: State, screen: Id): State
    requires screen < |s.screens|
  {
    s.(screens :=
         s.screens[screen := s.screens[screen].(generation := s.screens[screen].generation + 1, token := None)])
  }

  function ReenrollmentRequested(
      s: State, org: Id, screen: Id, code: Id, expiresAt: int, actor: Id, now: int): (State, Made)
  {
    if !IsAdministrator(s.users, org, actor) then (s, NotMade(MakeForbidden))
    else if !HasScreen(s.screens, org, screen) then (s, NotMade(TargetNotFound))
    else if CodeTaken(s.grants, code, now) then (s, NotMade(CodeCollision))
    else
      var issuer := IssuerOf(s.users, org, actor);
      var pruned := PrunedState(s, org, now, None);
      var revoked := RevokedState(pruned, Targeting(screen), Unbound);
      var detached := DetachedState(revoked, AttachedTo(org, screen), now);
      var t := Advanced(detached, screen);
      (t.(grants :=
            t.grants + [TargetedGrant(org, code, expiresAt, Reenroll, screen, t.screens[screen].generation, issuer)]),
       Made(|t.grants|, false))
  }

  datatype Keyed = Keyed(keyHash: Id, request: Id)

  function FirstFreeCode(grants: seq<Grant>, codes: seq<Id>, now: int): (r: Option<Id>)
    ensures r.Some? ==> r.value in codes && !CodeTaken(grants, r.value, now)
    ensures r.None? ==> forall c | c in codes :: CodeTaken(grants, c, now)
  {
    if codes == [] then None
    else if !CodeTaken(grants, codes[0], now) then Some(codes[0])
    else FirstFreeCode(grants, codes[1..], now)
  }

  predicate Eligible(s: State, org: Id, screen: Id)
    requires screen < |s.screens|
  {
    var x := s.screens[screen];
    x.generation == 0 && x.installation.None? && x.token.None? && !HasAnyCredential(s.credentials, org, screen)
  }

  /** Why a recorded request is not repeated, if it is not. */
  function RecordRefusal(r: EnrollmentRecord, actor: Id, k: Keyed, now: int): Option<MakeRefusal> {
    if r.actor != actor || r.request != k.request then Some(MakeKeyReused)
    else if r.expiresAt <= now || r.response.None? then Some(MakeKeyExpired)
    else None
  }

  function EnrollmentRequested(
      s: State, org: Id, screen: Id, codes: seq<Id>, actor: Id, k: Keyed, now: int): (State, Made)
  {
    if !IsAdministrator(s.users, org, actor) then (s, NotMade(MakeForbidden)) else
    var existing := FindRecord(s.records, CreateRecord, org, k.keyHash);
    if existing.Some? then
      var r := s.records[existing.value];
      var refusal := RecordRefusal(r, actor, k, now);
      if refusal.Some? then (s, NotMade(refusal.value))
      else if r.response.value >= |s.grants| || s.grants[r.response.value].pruned then (s, NotMade(MakeKeyExpired))
      else (PrunedState(s, org, now, Some(k.keyHash)), Made(r.response.value, true))
    else if !HasScreen(s.screens, org, screen) then (s, NotMade(TargetNotFound))
    else if !Eligible(s, org, screen) then (s, NotMade(NotEligible))
    else
      var code := FirstFreeCode(s.grants, codes, now);
      if code.None? then (s, NotMade(CodeCollision))
      else
        var issuer := IssuerOf(s.users, org, actor);
        var t := RevokedState(PrunedState(s, org, now, Some(k.keyHash)), EnrollingIn(org, screen), Unbound);
        (t.(grants := t.grants + [TargetedGrant(org, code.value, now + GRANT_LIFETIME, Enroll, screen, 0, issuer)],
            records :=
              t.records + [EnrollmentRecord(CreateRecord, org, k.keyHash, actor, k.request, now + AUTHORITY_RETENTION,
                                            Some(|t.grants|))]),
         Made(|t.grants|, false))
  }

  /** Withdraws one pending grant for a screen. */
  function GrantCancelled(s: State, org: Id, screen: Id, grant: Id, purpose: Purpose, actor: Id): (State, bool) {
    if && IsAdministrator(s.users, org, actor)
       && grant < |s.grants| && !s.grants[grant].pruned
       && var g := s.grants[grant];
          g.org == org && g.target.Some? && g.target.value.screen == screen && g.target.value.purpose == purpose
          && g.status.Pending?
    then (RevokedState(s, Only(grant), Unconsumed), true) else (s, false)
  }

  // ------------------------------------------------------------------ activating a proved attempt

  datatype Activation = Active(credential: Id, replayed: bool) | NotActive(reason: ActivationRefusal)

  datatype ActivationRefusal = ActivateForbidden | CandidateNotFound | Stale | FingerprintMismatch | ActivateKeyReused
    | ActivateKeyExpired

  /**
   Binds a new credential of the attempt's key to the screen and closes the grant; its other attempts
   are cancelled.
   */
  function Attached(s: State, screen: Id, grant: Id, attempt: Id): State
    requires screen < |s.screens| && grant < |s.grants| && attempt < |s.attempts|
  {
    var a := s.attempts[attempt];
    var x := s.screens[screen];
    s.(screens :=
         s.screens[screen := x.(installation := a.installation, token := None, generation := x.generation + 1)],
       credentials := s.credentials + [Credential(x.org, screen, a.key, a.credentialExpiresAt, false, None)],
       usedKeys := s.usedKeys + {a.key},
       grants := s.grants[grant := s.grants[grant].(status := Claimed, screen := Some(screen))],
       attempts :=
         OthersCancelled(s.attempts, grant, attempt)[attempt := a.(activated := true, bound := Some(|s.credentials|))])
  }

  function OthersCancelled(attempts: seq<Attempt>, grant: Id, attempt: Id): (r: seq<Attempt>)
    ensures |r| == |attempts|
    ensures forall i | 0 <= i < |attempts| ::
              r[i] == if attempts[i].grant == grant && i != attempt && !attempts[i].pruned
                      then attempts[i].(cancelled := true) else attempts[i]
  {
    seq(|attempts|, i requires 0 <= i < |attempts| =>
      if attempts[i].grant == grant && i != attempt && !attempts[i].pruned then attempts[i].(cancelled := true)
      else attempts[i])
  }

  predicate HasAttempt(attempts: seq<Attempt>, org: Id, attempt: Id) {
    attempt < |attempts| && !attempts[attempt].pruned && attempts[attempt].org == org
  }

  predicate HasTargetedGrant(grants: seq<Grant>, grant: Id, screen: Id, purpose: Purpose) {
    && grant < |grants| && !grants[grant].pruned && grants[grant].target.Some?
    && grants[grant].target.value.screen == screen && grants[grant].target.value.purpose == purpose
  }

  function ReenrollmentActivated(
      s: State, org: Id, screen: Id, grant: Id, attempt: Id, actor: Id, now: int): (State, Activation)
  {
    if !IsAdministrator(s.users, org, actor) then (s, NotActive(ActivateForbidden)) else
    var hasAttempt := HasAttempt(s.attempts, org, attempt);
    var hasGrant :=
      hasAttempt && s.attempts[attempt].grant == grant && HasTargetedGrant(s.grants, grant, screen, Reenroll);
    if hasGrant && !IssuerCurrent(s.users, org, s.grants[grant].target.value.issuer) then (s, NotActive(Stale))
    else if hasAttempt && (s.attempts[attempt].consumed || s.attempts[attempt].activated)
            && s.attempts[attempt].bound.Some? then
      var c := s.attempts[attempt].bound.value;
      if c < |s.credentials| && HasScreen(s.screens, org, screen) && s.credentials[c].revokedAt.None?
         && !s.credentials[c].detached
         && hasGrant && s.screens[screen].generation == s.grants[grant].target.value.expectedGeneration + 1
      then (s, Active(c, true)) else (s, NotActive(Stale))
    else if !hasAttempt || !hasGrant || !s.attempts[attempt].proved || s.attempts[attempt].cancelled
         then (s, NotActive(CandidateNotFound))
    else if !HasScreen(s.screens, org, screen) || !s.grants[grant].status.Pending? || s.grants[grant].expiresAt <= now
            || s.grants[grant].target.value.expectedGeneration != s.screens[screen].generation
    then (s, NotActive(Stale))
    else if HasKey(s.credentials, s.attempts[attempt].key) || s.attempts[attempt].key in s.usedKeys
         then (s, NotActive(Stale))
    else (RevokedState(Attached(s, screen, grant, attempt), Targeting(screen), Nothing), Active(|s.credentials|, false))
  }

  predicate ActivationStale(s: State, org: Id, screen: Id, grant: Id, attempt: Id, now: int)
    requires screen < |s.screens| && grant < |s.grants| && s.grants[grant].target.Some? && attempt < |s.attempts|
  {
    var g, a, x := s.grants[grant], s.attempts[attempt], s.screens[screen];
    || !IssuerCurrent(s.users, org, g.target.value.issuer)
    || !g.status.Pending? || g.expiresAt <= now
    || !a.proved || a.cancelled || a.activated
    || x.generation != g.target.value.expectedGeneration || g.target.value.expectedGeneration != 0
    || x.installation.Some? || x.token.Some?
    || HasAnyCredential(s.credentials, org, screen)
    || a.key in s.usedKeys
  }

  function EnrollmentActivated(s: State, org: Id, screen: Id, grant: Id, attempt: Id, fingerprint: Id, actor: Id,
      k: Keyed, now: int): (State, Activation)
  {
    if !IsAdministrator(s.users, org, actor) then (s, NotActive(ActivateForbidden)) else
    var existing := FindRecord(s.records, ActivateRecord, org, k.keyHash);
    if existing.Some? then
      var r := s.records[existing.value];
      var refusal := RecordRefusal(r, actor, k, now);
      if refusal.Some?
      then (s, NotActive(if refusal.value.MakeKeyReused? then ActivateKeyReused else ActivateKeyExpired))
      else if r.response.value >= |s.credentials| || !HasScreen(s.screens, org, screen) then (s, NotActive(Stale))
      else (PrunedState(s, org, now, Some(k.keyHash)), Active(r.response.value, true))
    else if !HasScreen(s.screens, org, screen) || !HasTargetedGrant(s.grants, grant, screen, Enroll)
            || s.grants[grant].org != org
            || !HasAttempt(s.attempts, org, attempt) || s.attempts[attempt].grant != grant
    then (s, NotActive(CandidateNotFound))
    else if s.attempts[attempt].key != fingerprint then (s, NotActive(FingerprintMismatch))
    else if ActivationStale(s, org, screen, grant, attempt, now) then (s, NotActive(Stale))
    else
      var c := |s.credentials|;
      var t := Attached(PrunedState(s, org, now, Some(k.keyHash)), screen, grant, attempt);
      var u := RevokedState(t, TargetingIn(org, screen), Unbound);
      (u.(records :=
            u.records + [EnrollmentRecord(ActivateRecord, org, k.keyHash, actor, k.request, now + AUTHORITY_RETENTION,
                                          Some(c))]),
       Active(c, false))
  }

  // ------------------------------------------------------------------ claiming an open code

  function NewScreen(org: Id, installation: Id, token: Option<Id>, grant: Id): Screen {
    Screen(org, 0, Some(installation), token, Some(grant), false)
  }

  /** Claims an open code with a bearer token. */
  function PairingClaimed(s: State, code: Id, installation: Id, token: Id, now: int): (State, Option<Id>) {
    var k := FindOpenCode(s.grants, code, now);
    if k.None? then (s, None) else
    var g := s.grants[k.value];
    (s.(screens := s.screens + [NewScreen(g.org, installation, Some(token), k.value)],
        grants := s.grants[k.value := g.(status := Claimed, screen := Some(|s.screens|))]),
     Some(|s.screens|))
  }

  datatype ProofRequest = ProofRequest(
    codeHash: Id, key: Id, credentialExpiresAt: Option<int>, hash: Id, transcript: Id, expiresAt: int)

  predicate Outstanding(a: Attempt, grant: Id, key: Id, now: int) {
    !a.pruned && a.grant == grant && a.key == key && !a.consumed && a.expiresAt > now
  }

  function OutstandingAttempts(attempts: seq<Attempt>, grant: Id, key: Id, now: int): set<nat> {
    set i | 0 <= i < |attempts| && Outstanding(attempts[i], grant, key, now)
  }

  predicate HashSeen(attempts: seq<Attempt>, hash: Id) {
    exists k :: 0 <= k < |attempts| && !attempts[k].pruned && attempts[k].hash == hash
  }

  function NewAttempt(org: Id, grant: Id, r: ProofRequest): Attempt {
    Attempt(org, grant, r.key, r.credentialExpiresAt, r.hash, r.transcript, r.expiresAt, None, false, false, false,
            false, None, false)
  }

  function ProofIssued(s: State, r: ProofRequest, now: int): (State, Option<Id>) {
    var k := FindCode(s.grants, r.codeHash, now);
    if k.None?
       || (s.grants[k.value].target.Some?
           && !IssuerCurrent(s.users, s.grants[k.value].org, s.grants[k.value].target.value.issuer))
       || r.expiresAt - now <= 0 || r.expiresAt - now > MAX_PROOF_LIFETIME
       || HasKey(s.credentials, r.key) || r.key in s.usedKeys
       || HashSeen(s.attempts, r.hash)
       || |OutstandingAttempts(s.attempts, k.value, r.key, now)| >= LIMIT
    then (s, None)
    else (s.(attempts := s.attempts + [NewAttempt(s.grants[k.value].org, k.value, r)]), Some(|s.attempts|))
  }

  /** A claim suspended at the verification of its proof. */
  datatype Claim = Claim(attempt: Id, grant: Id, installation: Id)

  function ClaimBegun(
      s: State, codeHash: Id, attempt: Id, hash: Id, transcript: Id, key: Id, installation: Id): Option<Claim>
  {
    if && attempt < |s.attempts| && !s.attempts[attempt].pruned
       && var a := s.attempts[attempt];
          && a.grant < |s.grants| && !s.grants[a.grant].pruned
          && s.grants[a.grant].org == a.org && s.grants[a.grant].codeHash == codeHash
          && a.hash == hash && a.transcript == transcript && a.key == key
    then Some(Claim(attempt, s.attempts[attempt].grant, installation)) else None
  }

  datatype Pairing = Paired(credential: Id, screen: Id) | PendingApproval | Invalid

  predicate Proved(a: Attempt, grant: Id) { !a.pruned && a.grant == grant && a.proved && !a.cancelled }

  function ProvedAttempts(attempts: seq<Attempt>, grant: Id): set<nat> {
    set i | 0 <= i < |attempts| && Proved(attempts[i], grant)
  }

  /** Binds a new credential of the attempt's key to a new screen and closes the open grant. */
  function AttachedToNew(s: State, c: Claim): State
    requires c.attempt < |s.attempts| && c.grant < |s.grants|
  {
    var a, g := s.attempts[c.attempt], s.grants[c.grant];
    s.(screens := s.screens + [NewScreen(g.org, c.installation, None, c.grant)],
       credentials := s.credentials + [Credential(g.org, |s.screens|, a.key, a.credentialExpiresAt, false, None)],
       usedKeys := s.usedKeys + {a.key},
       grants := s.grants[c.grant := g.(status := Claimed, screen := Some(|s.screens|))],
       attempts := s.attempts[c.attempt := a.(consumed := true, bound := Some(|s.credentials|))])
  }

  /** The part of a claim after its proof has been verified. */
  function ClaimFinished(s: State, c: Claim, now: int): (State, Pairing)
    requires c.attempt < |s.attempts| && c.grant < |s.grants|
  {
    var a, g := s.attempts[c.attempt], s.grants[c.grant];
    if (a.consumed || a.activated) && a.bound.Some? then
      var b := a.bound.value;
      if b < |s.credentials| && s.credentials[b].revokedAt.None? && Unexpired(s.credentials[b].expiresAt, now)
         && HasScreen(s.screens, s.credentials[b].org, s.credentials[b].screen)
      then (s, Paired(b, s.credentials[b].screen)) else (s, Invalid)
    else if g.target.Some? && a.proved && !a.cancelled && g.status.Pending? && g.expiresAt > now
         then (s, PendingApproval)
    else if a.expiresAt <= now || g.expiresAt <= now || !g.status.Pending? || HasKey(s.credentials, a.key)
         then (s, Invalid)
    else if g.target.Some? then
      if !IssuerCurrent(s.users, g.org, g.target.value.issuer) || |ProvedAttempts(s.attempts, c.grant)| >= LIMIT
      then (s, Invalid)
      else (s.(attempts := s.attempts[c.attempt := a.(proved := true, installation := Some(c.installation))]),
            PendingApproval)
    else (AttachedToNew(s, c), Paired(|s.credentials|, |s.screens|))
  }

  // ------------------------------------------------------------------ device challenges

  datatype ChallengeRequest = ChallengeRequest(
    screen: Id, key: Id, hash: Id, activity: Activity, request: Id, expiresAt: int)

  /** An issue suspended after it has authenticated the credential. */
  datatype Issue = Issue(credential: Option<Id>, r: ChallengeRequest)

  function IssueBegun(s: State, r: ChallengeRequest, now: int): Issue {
    var k := FindKeyed(s.credentials, r.screen, r.key);
    Issue(if k.Some? && IsActive(s, k.value, now) then k else None, r)
  }

  predicate Live(c: Challenge, credential: Id, activity: Activity, now: int) {
    !c.pruned && c.credential == credential && c.activity == activity && c.consumedAt.None? && c.expiresAt > now
  }

  function LiveChallenges(challenges: seq<Challenge>, credential: Id, activity: Activity, now: int): set<nat> {
    set i | 0 <= i < |challenges| && Live(challenges[i], credential, activity, now)
  }

  predicate Old(c: Challenge, now: int) { !c.pruned && c.expiresAt <= now - CHALLENGE_RETENTION }

  predicate ChallengeFirst(challenges: seq<Challenge>, i: nat, j: nat)
    requires i < |challenges| && j < |challenges|
  {
    || challenges[i].expiresAt < challenges[j].expiresAt
    || (challenges[i].expiresAt == challenges[j].expiresAt && i < j)
  }

  predicate DroppedNow(challenges: seq<Challenge>, now: int, i: nat)
    requires i < |challenges|
  {
    && Old(challenges[i], now)
    && |set j | 0 <= j < |challenges| && Old(challenges[j], now) && ChallengeFirst(challenges, j, i)| < BATCH
  }

  function KeptChallenges(challenges: seq<Challenge>, now: int): (r: seq<Challenge>)
    ensures |r| == |challenges|
    ensures forall i | 0 <= i < |challenges| ::
              r[i] == if DroppedNow(challenges, now, i) then challenges[i].(pruned := true) else challenges[i]
  {
    seq(|challenges|, i requires 0 <= i < |challenges| =>
      if DroppedNow(challenges, now, i) then challenges[i].(pruned := true) else challenges[i])
  }

  predicate ChallengeHashSeen(challenges: seq<Challenge>, hash: Id) {
    exists k :: 0 <= k < |challenges| && !challenges[k].pruned && challenges[k].hash == hash
  }

  function IssueFinished(s: State, i: Issue, now: int): (State, Option<Id>)
    requires i.credential.Some? ==> i.credential.value < |s.credentials|
  {
    var r := i.r;
    if i.credential.None?
       || r.expiresAt - now <= 0 || r.expiresAt - now > MAX_CHALLENGE_LIFETIME
       || ChallengeHashSeen(s.challenges, r.hash)
       || |LiveChallenges(s.challenges, i.credential.value, r.activity, now)| >= LIMIT
    then (s, None)
    else
      var c :=
        Challenge(s.credentials[i.credential.value].org, i.credential.value, r.hash, r.activity, r.request, r.expiresAt,
                  None, false);
      (s.(challenges := KeptChallenges(s.challenges, now) + [c]), Some(|s.challenges|))
  }

  datatype ProofInput = ProofInput(credential: Id, challenge: Id, hash: Id, activity: Activity, request: Id)

  /** A proof suspended at its verification: the generation of the screen when it began. */
  datatype Proof = Proof(input: ProofInput, generation: nat)

  predicate Matches(s: State, p: ProofInput, now: int) {
    && p.challenge < |s.challenges| && !s.challenges[p.challenge].pruned
    && var c := s.challenges[p.challenge];
       && c.credential == p.credential && p.credential < |s.credentials| && c.org == s.credentials[p.credential].org
       && c.consumedAt.None? && c.expiresAt > now
       && c.hash == p.hash && c.activity == p.activity && c.request == p.request
  }

  function ProofBegun(s: State, p: ProofInput, now: int): Option<Proof> {
    if IsActive(s, p.credential, now) && Matches(s, p, now)
    then Some(Proof(p, s.screens[s.credentials[p.credential].screen].generation)) else None
  }

  /** The part of a proof after its verification: everything is looked up and checked again. */
  predicate Accepts(s: State, p: Proof, now: int) {
    && IsActive(s, p.input.credential, now) && Matches(s, p.input, now)
    && s.screens[s.credentials[p.input.credential].screen].generation == p.generation
  }

  function ProofFinished(s: State, p: Proof, now: int): (State, bool) {
    if !Accepts(s, p, now) then (s, false)
    else (s.(challenges :=
               s.challenges[p.input.challenge := s.challenges[p.input.challenge].(consumedAt := Some(now))]), true)
  }

  // ------------------------------------------------------------------ revoking credentials, removing screens

  datatype Revocation = RevokedCredential(credential: Option<Id>) | NotRevoked(reason: RevokeRefusal)

  datatype RevokeRefusal = RevokeForbidden | NoCredential | AlreadyRevoked

  predicate HasPending(grants: seq<Grant>, org: Id, screen: Id) {
    exists k :: 0 <= k < |grants| && Selects(TargetingIn(org, screen), k, grants[k])
  }

  function CredentialToRevoke(credentials: seq<Credential>, org: Id, screen: Id): Option<nat> {
    var attached := FindAttached(credentials, org, screen);
    if attached.Some? then attached else FindRevoked(credentials, org, screen)
  }

  function CredentialRevoked(s: State, org: Id, screen: Id, actor: Id, now: int): (State, Revocation) {
    if !IsAdministrator(s.users, org, actor) then (s, NotRevoked(RevokeForbidden)) else
    var c := CredentialToRevoke(s.credentials, org, screen);
    if !HasScreen(s.screens, org, screen) then (s, NotRevoked(NoCredential))
    else if c.None? || s.credentials[c.value].revokedAt.Some? then
      if !HasPending(s.grants, org, screen) then (s, NotRevoked(if c.Some? then AlreadyRevoked else NoCredential))
      else (Advanced(RevokedState(s, TargetingIn(org, screen), Unconsumed), screen), RevokedCredential(c))
    else
      var detached := DetachedState(s, Single(c.value), now);
      (RevokedState(Advanced(detached, screen), Targeting(screen), Unconsumed), RevokedCredential(c))
  }

  function ScreenDeleted(s: State, org: Id, screen: Id, actor: Id, now: int): (State, bool) {
    if !IsAdministrator(s.users, org, actor) || !HasScreen(s.screens, org, screen) then (s, false) else
    var t := RevokedState(DetachedState(s, EverOn(org, screen), now), Targeting(screen), Nothing);
    (t.(screens := t.screens[screen := t.screens[screen].(deleted := true)]), true)
  }

  function ScreenCreated(s: State, org: Id): State {
    s.(screens := s.screens + [Screen(org, 0, None, None, None, false)])
  }

  // ------------------------------------------------------------------ identity mutations

  /** The issuer's pending grants go first, then the rows change. */
  function UserMutated(s: State, m: Identity.Mutation, sessions: seq<Identity.Session>, now: int): State {
    var before := Identity.State(s.users, sessions, 0);
    var outcome := Identity.Judge(before, m, now);
    if !outcome.Applied? then s
    else RevokedState(s, IssuedBy(m.user, outcome.orgs), Unbound).(users := Identity.Mutated(before, m, now).users)
  }
}
