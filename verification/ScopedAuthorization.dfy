/**
 The scoped authorization policy core (apps/api/src/authorization/scoped.ts).

 Ids are numbers whose order stands for the order the source sorts by; 0 is the empty string.
 The evidence digest is the record it is computed from.
 */
module ScopedAuthorization {
  import opened Common

  type Id = nat

  datatype Role = Owner | Admin | Publisher | Viewer | OtherRole(name: nat)

  datatype Capability =
    | AuthorizationManage
    | ScreenRead | LocationRead | MediaRead | PlaylistRead | ScheduleRead
    | CandidateRead | CandidateCreate | CandidateSubmit
    | ReleaseApprove | ReleasePublish | ReleaseWithdraw
    | CredentialRevoke | CredentialReenroll
    | EmergencyActivate | EmergencyClear
    | OtherCapability(name: nat)

  datatype Scope = Organization | Location | ScreenGroup | Screen | UnknownScope

  /** A time stamp field: its milliseconds when it is in canonical form. */
  datatype Stamp = Canonical(ms: int) | Malformed

  datatype Grant = Grant(
    id: Id, organization: Id, user: Id, membership: Id, capability: Capability,
    scope: Scope, scopeId: Option<Id>, startsAt: Stamp, expiresAt: Option<Stamp>, revoked: bool)

  datatype Target = Target(organization: Id, screen: Id, location: Option<Id>, groups: seq<Id>)

  datatype Request = Request(
    organization: Id, actor: Id, membership: Id, role: Role, epoch: int, capability: Capability,
    evaluatedAt: Stamp, grants: seq<Grant>, targets: seq<Target>)

  datatype ActiveGrant = ActiveGrant(
    id: Id, membership: Id, scope: Scope, scopeId: Option<Id>, startsAt: int, expiresAt: Option<int>)

  datatype NormalTarget = NormalTarget(screen: Id, location: Option<Id>, groups: seq<int>)

  datatype Reason =
    Allowed | InvalidContext | UnknownCapability | RoleCeilingDenied | TargetsRequired
    | OrganizationScopeRequired | ScopeDenied

  datatype Evidence = Evidence(
    organization: Id, actor: Id, membership: Id, role: Role, epoch: int, capability: Capability,
    targets: seq<NormalTarget>, grants: seq<ActiveGrant>, result: Reason)

  datatype Decision = Decision(allowed: bool, reason: Reason, matching: seq<int>, evidence: Evidence)

  const VIEWER := {ScreenRead, LocationRead, MediaRead, PlaylistRead, ScheduleRead, CandidateRead}
  const PUBLISHER := VIEWER + {CandidateCreate, CandidateSubmit, ReleasePublish, ReleaseWithdraw}
  const ADMIN := PUBLISHER + {ReleaseApprove, CredentialRevoke, CredentialReenroll}
  const OWNER := ADMIN + {AuthorizationManage}
  const TARGET_SCOPED := ADMIN - ORGANIZATION_SCOPED
  const ORGANIZATION_SCOPED := {LocationRead, MediaRead, PlaylistRead}

  predicate HasCapability(role: Role, capability: Capability) {
    match role
    case Owner => capability in OWNER
    case Admin => capability in ADMIN
    case Publisher => capability in PUBLISHER
    case Viewer => capability in VIEWER
    case OtherRole(_) => false
  }

  // ------------------------------------------------------------------ targets

  predicate ValidTarget(organization: Id, t: Target) {
    && t.organization == organization
    && t.screen != 0
    && t.location != Some(0)
    && forall k | 0 <= k < |t.groups| :: t.groups[k] != 0
  }

  function NormalTargetOf(t: Target): NormalTarget {
    NormalTarget(t.screen, t.location, SortUnique(t.groups))
  }

  function TargetKey(t: NormalTarget): int { t.screen }

  predicate DistinctScreens(targets: seq<Target>) {
    forall i, j | 0 <= i < j < |targets| :: targets[i].screen != targets[j].screen
  }

  predicate ValidTargets(organization: Id, targets: seq<Target>) {
    && (forall i | 0 <= i < |targets| :: ValidTarget(organization, targets[i]))
    && DistinctScreens(targets)
  }

  function NormalTargetsOf(targets: seq<Target>): seq<NormalTarget> {
    seq(|targets|, i requires 0 <= i < |targets| => NormalTargetOf(targets[i]))
  }

  function Normalized(organization: Id, targets: seq<Target>): Option<seq<NormalTarget>> {
    if ValidTargets(organization, targets) then Some(SortBy(NormalTargetsOf(targets), TargetKey)) else None
  }

  method NormalizeTargets(organization: Id, targets: seq<Target>) returns (r: Option<seq<NormalTarget>>)
    ensures r == Normalized(organization, targets)
  {
    var seen: set<Id> := {};
    var normalized: seq<NormalTarget> := [];
    for i := 0 to |targets|
      invariant forall j | 0 <= j < i :: ValidTarget(organization, targets[j]) && targets[j].screen in seen
      invariant forall id | id in seen :: exists j :: 0 <= j < i && targets[j].screen == id
      invariant DistinctScreens(targets[..i])
      invariant normalized == NormalTargetsOf(targets[..i])
    {
      var target := targets[i];
      if !ValidTarget(organization, target) || target.screen in seen {
        return None;
      }
      seen := seen + {target.screen};
      normalized := normalized + [NormalTargetOf(target)];
    }
    assert targets[..|targets|] == targets;
    return Some(SortBy(normalized, TargetKey));
  }

  // ------------------------------------------------------------------ grants

  function Activated(g: Grant, r: Request, now: int): Option<ActiveGrant> {
    if g.id == 0 || g.membership == 0
       || g.organization != r.organization || g.user != r.actor || g.membership != r.membership
       || g.capability != r.capability || g.scope.UnknownScope? || g.revoked
    then None
    else if g.startsAt.Malformed? || g.expiresAt == Some(Malformed) || g.startsAt.ms > now
            || (g.expiresAt.Some? && g.expiresAt.value.ms <= now)
    then None
    else if if g.scope.Organization? then g.scopeId.Some? else g.scopeId.None? || g.scopeId == Some(0)
    then None
    else Some(ActiveGrant(g.id, g.membership, g.scope, g.scopeId, g.startsAt.ms,
                          if g.expiresAt.Some? then Some(g.expiresAt.value.ms) else None))
  }

  function ActiveOf(grants: seq<Grant>, r: Request, now: int): seq<ActiveGrant> {
    if grants == [] then [] else
    var first := Activated(grants[0], r, now);
    (if first.Some? then [first.value] else []) + ActiveOf(grants[1..], r, now)
  }

  function GrantKey(g: ActiveGrant): int { g.id }

  predicate DistinctIds(grants: seq<ActiveGrant>) {
    forall i, j | 0 <= i < j < |grants| :: grants[i].id != grants[j].id
  }

  predicate Covers(g: ActiveGrant, t: NormalTarget) {
    match g.scope
    case Organization => true
    case Location => t.location.Some? && t.location == g.scopeId
    case ScreenGroup => (if g.scopeId.Some? then g.scopeId.value else 0) in t.groups
    case Screen => Some(t.screen) == g.scopeId
    case UnknownScope => false
  }

  function FirstCovering(grants: seq<ActiveGrant>, t: NormalTarget): (r: Option<ActiveGrant>)
    ensures r.Some? ==> r.value in grants && Covers(r.value, t)
    ensures r.None? ==> forall g | g in grants :: !Covers(g, t)
  {
    if grants == [] then None
    else if Covers(grants[0], t) then Some(grants[0])
    else FirstCovering(grants[1..], t)
  }

  function FirstOrganizationWide(grants: seq<ActiveGrant>): (r: Option<ActiveGrant>)
    ensures r.Some? ==> r.value in grants && r.value.scope.Organization?
    ensures r.None? ==> forall g | g in grants :: !g.scope.Organization?
  {
    if grants == [] then None
    else if grants[0].scope.Organization? then Some(grants[0])
    else FirstOrganizationWide(grants[1..])
  }

  ghost predicate Covered(active: seq<ActiveGrant>, t: NormalTarget) {
    exists g :: g in active && Covers(g, t)
  }

  /** The grants picked for the targets, in order, unless some target is not covered. */
  function Selection(active: seq<ActiveGrant>, targets: seq<NormalTarget>): (r: Option<seq<ActiveGrant>>)
    ensures r.Some? <==> forall t | t in targets :: Covered(active, t)
    ensures r.Some? ==> forall g | g in r.value :: g in active
  {
    if targets == [] then Some([]) else
    var n := |targets| - 1;
    assert targets == targets[..n] + [targets[n]] && targets[n] in targets;
    var before := Selection(active, targets[..n]);
    var last := FirstCovering(active, targets[n]);
    assert forall t :: t in targets <==> t in targets[..n] || t == targets[n];
    if before.None? || last.None? then None else Some(before.value + [last.value])
  }

  // ------------------------------------------------------------------ the decision

  function Ids(grants: seq<ActiveGrant>): seq<int> {
    seq(|grants|, i requires 0 <= i < |grants| => grants[i].id)
  }

  function Decide(r: Request, targets: seq<NormalTarget>, reason: Reason, grants: seq<ActiveGrant>): Decision {
    Decision(reason.Allowed?, reason, SortUnique(Ids(grants)),
             Evidence(r.organization, r.actor, r.membership, r.role, r.epoch, r.capability,
                      targets, SortBy(grants, GrantKey), reason))
  }

  const MAX_SAFE_INTEGER := 0x1F_FFFF_FFFF_FFFF

  predicate ValidScalars(r: Request) {
    && r.organization != 0 && r.actor != 0 && r.membership != 0
    && 0 <= r.epoch <= MAX_SAFE_INTEGER
    && r.evaluatedAt.Canonical?
  }

  function Active(r: Request): seq<ActiveGrant>
    requires r.evaluatedAt.Canonical?
  {
    SortBy(ActiveOf(r.grants, r, r.evaluatedAt.ms), GrantKey)
  }

  /** The decision as a function of the request. */
  function Decided(r: Request): Decision {
    var normalized := Normalized(r.organization, r.targets);
    var targets := if normalized.Some? then normalized.value else [];
    if !ValidScalars(r) || normalized.None? then Decide(r, targets, InvalidContext, [])
    else if r.capability.OtherCapability? then Decide(r, targets, UnknownCapability, [])
    else if !HasCapability(r.role, r.capability) then Decide(r, targets, RoleCeilingDenied, [])
    else if !DistinctIds(Active(r)) then Decide(r, targets, InvalidContext, [])
    else if r.capability.AuthorizationManage? then Decide(r, targets, ScopeDenied, [])
    else if r.capability in ORGANIZATION_SCOPED then
      if targets != [] then Decide(r, targets, OrganizationScopeRequired, []) else
      var g := FirstOrganizationWide(Active(r));
      if g.Some? then Decide(r, targets, Allowed, [g.value]) else Decide(r, targets, ScopeDenied, [])
    else if r.capability !in TARGET_SCOPED then Decide(r, targets, RoleCeilingDenied, [])
    else if targets == [] then Decide(r, targets, TargetsRequired, [])
    else
      var selected := Selection(Active(r), targets);
      if selected.Some? then Decide(r, targets, Allowed, selected.value) else Decide(r, targets, ScopeDenied, [])
  }

  method EvaluateScopedAuthorization(r: Request) returns (d: Decision)
    ensures d == Decided(r)
  {
    hide Decide, Normalized, ActiveOf, SortBy, Covers;
    var normalized := NormalizeTargets(r.organization, r.targets);
    if !ValidScalars(r) || normalized.None? {
      return Decide(r, if normalized.Some? then normalized.value else [], InvalidContext, []);
    }
    var targets := normalized.value;
    if r.capability.OtherCapability? {
      return Decide(r, targets, UnknownCapability, []);
    }
    if !HasCapability(r.role, r.capability) {
      return Decide(r, targets, RoleCeilingDenied, []);
    }
    var active := Active(r);
    if !DistinctIds(active) {
      return Decide(r, targets, InvalidContext, []);
    }
    if r.capability.AuthorizationManage? {
      return Decide(r, targets, ScopeDenied, []);
    }
    if r.capability in ORGANIZATION_SCOPED {
      if targets != [] {
        return Decide(r, targets, OrganizationScopeRequired, []);
      }
      var grant := FirstOrganizationWide(active);
      return if grant.Some? then Decide(r, targets, Allowed, [grant.value]) else Decide(r, targets, ScopeDenied, []);
    }
    if r.capability !in TARGET_SCOPED {
      return Decide(r, targets, RoleCeilingDenied, []);
    }
    if targets == [] {
      return Decide(r, targets, TargetsRequired, []);
    }
    var selected := [];
    for i := 0 to |targets|
      invariant Selection(active, targets[..i]) == Some(selected)
    {
      var grant := FirstCovering(active, targets[i]);
      assert targets[..i + 1][..i] == targets[..i];
      if grant.None? {
        assert targets[i] in targets;
        return Decide(r, targets, ScopeDenied, []);
      }
      selected := selected + [grant.value];
    }
    assert targets[..|targets|] == targets;
    return Decide(r, targets, Allowed, selected);
  }

  // ------------------------------------------------------------------ a function of sets

  ghost predicate SameTarget(t: Target, t': Target) {
    && t.organization == t'.organization && t.screen == t'.screen && t.location == t'.location
    && forall g :: g in t.groups <==> g in t'.groups
  }

  ghost predicate Listed(t: Target, ts: seq<Target>) {
    exists t' :: t' in ts && SameTarget(t, t')
  }

  /** The same targets, in any order, each with its groups in any order and repeated at will. */
  ghost predicate SameTargets(ts: seq<Target>, ts': seq<Target>) {
    && |ts| == |ts'|
    && (forall t | t in ts :: Listed(t, ts'))
    && (forall t | t in ts' :: Listed(t, ts))
  }

  ghost predicate SameRequest(r: Request, r': Request) {
    && r' == r.(grants := r'.grants, targets := r'.targets)
    && multiset(r.grants) == multiset(r'.grants)
    && SameTargets(r.targets, r'.targets)
  }

  function ScreenSet(targets: seq<Target>): (r: set<Id>)
    ensures forall i | 0 <= i < |targets| :: targets[i].screen in r
    ensures forall id | id in r :: exists i :: 0 <= i < |targets| && targets[i].screen == id
  {
    if targets == [] then {} else ScreenSet(targets[1..]) + {targets[0].screen}
  }

  lemma {:induction false} DistinctFromFirst(targets: seq<Target>)
    requires targets != []
    ensures DistinctScreens(targets) <==>
            DistinctScreens(targets[1..]) && targets[0].screen !in ScreenSet(targets[1..])
  {
    hide ScreenSet;
    var rest, first := targets[1..], targets[0].screen;
    if DistinctScreens(targets) {
      assert forall i | 0 <= i < |rest| :: rest[i] == targets[i + 1];
    } else {
      var i, j :| 0 <= i < j < |targets| && targets[i].screen == targets[j].screen;
      assert rest[j - 1] == targets[j];
      assert i > 0 ==> rest[i - 1] == targets[i];
    }
  }

  /** Screens repeat exactly when there are fewer of them than targets. */
  lemma {:induction false} DistinctByCounting(targets: seq<Target>)
    ensures |ScreenSet(targets)| <= |targets|
    ensures DistinctScreens(targets) <==> |ScreenSet(targets)| == |targets|
  {
    if targets != [] {
      DistinctFromFirst(targets);
      DistinctByCounting(targets[1..]);
      hide DistinctScreens;
      if targets[0].screen in ScreenSet(targets[1..]) {
        assert ScreenSet(targets) == ScreenSet(targets[1..]);
      }
    }
  }

  lemma {:induction false} SameTargetSameForm(organization: Id, t: Target, t': Target)
    requires SameTarget(t, t')
    ensures ValidTarget(organization, t) == ValidTarget(organization, t')
    ensures NormalTargetOf(t) == NormalTargetOf(t')
  {
    hide SortUnique;
    SortUniqueOfSameElements(t.groups, t'.groups);
    assert (exists k :: 0 <= k < |t.groups| && t.groups[k] == 0) <==> 0 in t.groups;
    assert (exists k :: 0 <= k < |t'.groups| && t'.groups[k] == 0) <==> 0 in t'.groups;
  }

  lemma {:induction false} ListedForms(organization: Id, ts: seq<Target>, ts': seq<Target>)
    requires forall t | t in ts :: Listed(t, ts')
    ensures ValidTargets(organization, ts') ==> forall i | 0 <= i < |ts| :: ValidTarget(organization, ts[i])
    ensures forall n | n in NormalTargetsOf(ts) :: n in NormalTargetsOf(ts')
    ensures ScreenSet(ts) <= ScreenSet(ts')
  {
    hide NormalTargetOf, ValidTarget;
    forall i | 0 <= i < |ts|
      ensures ValidTargets(organization, ts') ==> ValidTarget(organization, ts[i])
      ensures NormalTargetOf(ts[i]) in NormalTargetsOf(ts')
      ensures ts[i].screen in ScreenSet(ts')
    {
      assert ts[i] in ts;
      var t' :| t' in ts' && SameTarget(ts[i], t');
      SameTargetSameForm(organization, ts[i], t');
      var j :| 0 <= j < |ts'| && ts'[j] == t';
      assert NormalTargetsOf(ts')[j] == NormalTargetOf(ts[i]);
    }
  }

  lemma {:induction false} SameTargetsNormalize(organization: Id, ts: seq<Target>, ts': seq<Target>)
    requires SameTargets(ts, ts')
    ensures Normalized(organization, ts) == Normalized(organization, ts')
  {
    hide ValidTarget, SortBy, Listed, NormalTargetOf;
    ListedForms(organization, ts, ts');
    ListedForms(organization, ts', ts);
    assert ScreenSet(ts) == ScreenSet(ts');
    DistinctByCounting(ts);
    DistinctByCounting(ts');
    assert DistinctScreens(ts) == DistinctScreens(ts');
    assert ValidTargets(organization, ts) == ValidTargets(organization, ts');
    if ValidTargets(organization, ts) {
      NormalScreens(ts);
      NormalScreens(ts');
      var ns, ns' := NormalTargetsOf(ts), NormalTargetsOf(ts');
      DistinctMultisets(ns, ns');
      SortByOfSameElements(ns, ns', TargetKey) by {
        forall m, n | m in ns && n in ns && TargetKey(m) == TargetKey(n) ensures m == n { }
      }
    }
  }

  lemma {:induction false} NormalScreens(ts: seq<Target>)
    ensures forall i | 0 <= i < |ts| :: NormalTargetsOf(ts)[i].screen == ts[i].screen
  {
  }

  /** Lists without repeated keys are permutations of each other once they have the same members. */
  lemma {:induction false} DistinctMultisets(ns: seq<NormalTarget>, ns': seq<NormalTarget>)
    requires forall i, j | 0 <= i < j < |ns| :: ns[i].screen != ns[j].screen
    requires forall i, j | 0 <= i < j < |ns'| :: ns'[i].screen != ns'[j].screen
    requires forall n :: n in ns <==> n in ns'
    ensures multiset(ns) == multiset(ns')
  {
    OnceEach(ns);
    OnceEach(ns');
    assert forall n :: multiset(ns)[n] == multiset(ns')[n];
  }

  lemma {:induction false} OnceEach(ns: seq<NormalTarget>)
    requires forall i, j | 0 <= i < j < |ns| :: ns[i].screen != ns[j].screen
    ensures forall n :: multiset(ns)[n] == if n in ns then 1 else 0
  {
    if ns != [] {
      OnceEach(ns[1..]);
      assert ns == [ns[0]] + ns[1..];
      assert ns[0] !in ns[1..];
    }
  }

  lemma {:induction false} ActiveOfJoined(gs: seq<Grant>, gs': seq<Grant>, r: Request, now: int)
    ensures ActiveOf(gs + gs', r, now) == ActiveOf(gs, r, now) + ActiveOf(gs', r, now)
  {
    if gs == [] {
      assert gs + gs' == gs';
    } else {
      assert gs + gs' == [gs[0]] + (gs[1..] + gs');
      ActiveOfJoined(gs[1..], gs', r, now);
    }
  }

  lemma {:induction false} ActiveOfInserted(front: seq<Grant>, g: Grant, back: seq<Grant>, r: Request, now: int)
    ensures multiset(ActiveOf(front + [g] + back, r, now)) ==
            multiset(ActiveOf(front + back, r, now)) + multiset(ActiveOf([g], r, now))
  {
    hide ActiveOf;
    ActiveOfJoined(front, back, r, now);
    ActiveOfJoined(front + [g], back, r, now);
    ActiveOfJoined(front, [g], r, now);
  }

  lemma {:induction false} Around(g: Grant, gs: seq<Grant>) returns (front: seq<Grant>, back: seq<Grant>)
    requires g in gs
    ensures gs == front + [g] + back
  {
    var k :| 0 <= k < |gs| && gs[k] == g;
    front, back := gs[..k], gs[k + 1..];
  }

  lemma {:induction false} SameWithoutOne(g: Grant, rest: seq<Grant>, front: seq<Grant>, back: seq<Grant>)
    requires multiset([g] + rest) == multiset(front + [g] + back)
    ensures multiset(rest) == multiset(front + back)
  {
    assert multiset([g] + rest) == multiset{g} + multiset(rest);
    assert multiset(front + [g] + back) == multiset{g} + multiset(front + back);
    assert multiset(rest) == multiset([g] + rest) - multiset{g};
  }

  lemma {:induction false} ActiveOfPermuted(gs: seq<Grant>, gs': seq<Grant>, r: Request, now: int)
    requires multiset(gs) == multiset(gs')
    ensures multiset(ActiveOf(gs, r, now)) == multiset(ActiveOf(gs', r, now))
  {
    hide ActiveOf;
    SameMultisetSameMembers(gs, gs');
    if gs == [] {
      assert gs' == [];
    } else {
      var g, rest := gs[0], gs[1..];
      assert g in gs;
      var front, back := Around(g, gs');
      assert gs == [g] + rest && gs == [] + [g] + rest && [] + rest == rest;
      SameWithoutOne(g, rest, front, back);
      ActiveOfPermuted(rest, front + back, r, now);
      ActiveOfInserted([], g, rest, r, now);
      ActiveOfInserted(front, g, back, r, now);
    }
  }

  /** The activation of a grant looks only at the request's scalars. */
  lemma {:induction false} ActiveOfScalars(gs: seq<Grant>, r: Request, r': Request, now: int)
    requires r' == r.(grants := r'.grants, targets := r'.targets, evaluatedAt := r'.evaluatedAt)
    ensures ActiveOf(gs, r, now) == ActiveOf(gs, r', now)
  {
    if gs != [] {
      ActiveOfScalars(gs[1..], r, r', now);
    }
  }

  lemma {:induction false} SameRequestSameActive(r: Request, r': Request)
    requires SameRequest(r, r') && r.evaluatedAt.Canonical?
    ensures DistinctIds(Active(r)) == DistinctIds(Active(r'))
    ensures DistinctIds(Active(r)) ==> Active(r) == Active(r')
  {
    hide Activated, SortBy, SameTargets;
    var now := r.evaluatedAt.ms;
    var gs, gs' := ActiveOf(r.grants, r, now), ActiveOf(r'.grants, r', now);
    ActiveOfScalars(r'.grants, r, r', now);
    ActiveOfPermuted(r.grants, r'.grants, r, now);
    if DistinctIds(Active(r)) { SortedDistinct(gs, gs'); }
    if DistinctIds(Active(r')) { SortedDistinct(gs', gs); }
  }

  lemma {:induction false} SortedDistinct(gs: seq<ActiveGrant>, gs': seq<ActiveGrant>)
    requires multiset(gs) == multiset(gs') && DistinctIds(SortBy(gs, GrantKey))
    ensures SortBy(gs, GrantKey) == SortBy(gs', GrantKey)
  {
    hide SortBy;
    var sorted := SortBy(gs, GrantKey);
    SortByProperties(gs, GrantKey);
    SameMultisetSameMembers(sorted, gs);
    forall g, h | g in gs && h in gs && GrantKey(g) == GrantKey(h) ensures g == h {
      assert g in sorted && h in sorted;
    }
    SortByOfSameElements(gs, gs', GrantKey);
  }

  /**
   Order independence: the whole decision, evidence included, is the same however the grants,
   the targets and their groups are ordered and however often groups repeat.
   */
  lemma {:induction false} DecisionIsOrderIndependent(r: Request, r': Request)
    requires SameRequest(r, r')
    ensures Decided(r) == Decided(r')
  {
    hide Selection, Normalized, Active, SameTargets, Activated, HasCapability, SortBy, SortUnique;
    SameTargetsNormalize(r.organization, r.targets, r'.targets);
    if r.evaluatedAt.Canonical? {
      SameRequestSameActive(r, r');
    }
  }

  // ------------------------------------------------------------------ when access is allowed

  /** The request is well formed and no two of its active grants share an id. */
  predicate ValidContext(r: Request) {
    ValidScalars(r) && ValidTargets(r.organization, r.targets) && DistinctIds(Active(r))
  }

  /** Some grant of the request is active now and covers the target. */
  ghost predicate Granted(r: Request, t: Target)
    requires r.evaluatedAt.Canonical?
  {
    exists g :: g in r.grants && Grants(r, g, t)
  }

  predicate Grants(r: Request, g: Grant, t: Target)
    requires r.evaluatedAt.Canonical?
  {
    var a := Activated(g, r, r.evaluatedAt.ms);
    a.Some? && Covers(a.value, NormalTargetOf(t))
  }

  lemma {:induction false} ActiveMembers(gs: seq<Grant>, r: Request, now: int, a: ActiveGrant)
    ensures a in ActiveOf(gs, r, now) <==> exists g :: g in gs && Activated(g, r, now) == Some(a)
  {
    if gs != [] {
      ActiveMembers(gs[1..], r, now, a);
      assert gs == [gs[0]] + gs[1..];
    }
  }

  lemma {:induction false} CoveredMeansGranted(r: Request, t: Target)
    requires r.evaluatedAt.Canonical?
    ensures Covered(Active(r), NormalTargetOf(t)) <==> Granted(r, t)
  {
    hide Activated, Covers, SortBy;
    var now := r.evaluatedAt.ms;
    var gs := ActiveOf(r.grants, r, now);
    SortByProperties(gs, GrantKey);
    SameMultisetSameMembers(Active(r), gs);
    if a :| a in Active(r) && Covers(a, NormalTargetOf(t)) {
      ActiveMembers(r.grants, r, now, a);
      var g :| g in r.grants && Activated(g, r, now) == Some(a);
      assert Grants(r, g, t);
    }
    if g :| g in r.grants && Grants(r, g, t) {
      var a := Activated(g, r, now).value;
      ActiveMembers(r.grants, r, now, a);
      assert a in Active(r);
    }
  }

  lemma {:induction false} NormalizedMembers(r: Request)
    requires ValidTargets(r.organization, r.targets)
    ensures var ns := Normalized(r.organization, r.targets).value;
            && |ns| == |r.targets|
            && forall n :: n in ns <==> exists i :: 0 <= i < |r.targets| && n == NormalTargetOf(r.targets[i])
  {
    hide NormalTargetOf, SortBy;
    var ns := NormalTargetsOf(r.targets);
    SortByProperties(ns, TargetKey);
    SameMultisetSameMembers(SortBy(ns, TargetKey), ns);
    forall n ensures n in ns <==> exists i :: 0 <= i < |r.targets| && n == NormalTargetOf(r.targets[i]) {
      if n in ns { var i :| 0 <= i < |ns| && ns[i] == n; }
      if i :| 0 <= i < |r.targets| && n == NormalTargetOf(r.targets[i]) { assert ns[i] == n; }
    }
  }

  /**
   For a capability that acts on screens, access is allowed exactly when the context is valid,
   the role may hold the capability, there are targets, and each is covered by an active grant.
   */
  lemma {:induction false} AllowedExactly(r: Request)
    requires r.capability in TARGET_SCOPED
    ensures Decided(r).allowed <==>
            && ValidContext(r)
            && HasCapability(r.role, r.capability)
            && r.targets != []
            && forall i | 0 <= i < |r.targets| :: Granted(r, r.targets[i])
  {
    hide Activated, Covers, SortBy, SortUnique, Active, NormalTargetOf;
    if ValidScalars(r) && ValidTargets(r.organization, r.targets) {
      NormalizedMembers(r);
      var ns := Normalized(r.organization, r.targets).value;
      forall i | 0 <= i < |r.targets|
        ensures NormalTargetOf(r.targets[i]) in ns
        ensures Covered(Active(r), NormalTargetOf(r.targets[i])) <==> Granted(r, r.targets[i])
      {
        CoveredMeansGranted(r, r.targets[i]);
      }
    }
  }

  /** Some grant of the request is active and speaks for the whole organization. */
  ghost predicate GrantedOrganizationWide(r: Request)
    requires r.evaluatedAt.Canonical?
  {
    exists g :: g in r.grants && GrantsOrganization(r, g)
  }

  predicate GrantsOrganization(r: Request, g: Grant)
    requires r.evaluatedAt.Canonical?
  {
    var a := Activated(g, r, r.evaluatedAt.ms);
    a.Some? && a.value.scope.Organization?
  }

  /**
   For a capability that acts on the organization, access is allowed exactly when the context is
   valid, the role may hold the capability, no target is named, and an active grant speaks for the
   whole organization.
   */
  lemma {:induction false} OrganizationAllowedExactly(r: Request)
    requires r.capability in ORGANIZATION_SCOPED
    ensures Decided(r).allowed <==>
            && ValidContext(r)
            && HasCapability(r.role, r.capability)
            && r.targets == []
            && GrantedOrganizationWide(r)
  {
    hide Activated, Covers, SortBy, SortUnique, Active, NormalTargetOf;
    if ValidScalars(r) && ValidTargets(r.organization, r.targets) {
      NormalizedMembers(r);
      OrganizationWideMeansGranted(r);
    }
  }

  lemma {:induction false} OrganizationWideMeansGranted(r: Request)
    requires r.evaluatedAt.Canonical?
    ensures FirstOrganizationWide(Active(r)).Some? <==> GrantedOrganizationWide(r)
  {
    hide Activated, SortBy;
    var now := r.evaluatedAt.ms;
    var gs := ActiveOf(r.grants, r, now);
    SortByProperties(gs, GrantKey);
    SameMultisetSameMembers(Active(r), gs);
    if a :| a in Active(r) && a.scope.Organization? {
      ActiveMembers(r.grants, r, now, a);
      var g :| g in r.grants && Activated(g, r, now) == Some(a);
      assert GrantsOrganization(r, g);
    }
    if g :| g in r.grants && GrantsOrganization(r, g) {
      var a := Activated(g, r, now).value;
      ActiveMembers(r.grants, r, now, a);
      assert a in Active(r);
    }
  }

  /** Nothing but these two kinds of capability is ever allowed. */
  lemma {:induction false} AllowedIsScoped(r: Request)
    ensures Decided(r).allowed ==> r.capability in ORGANIZATION_SCOPED || r.capability in TARGET_SCOPED
  {
    hide Normalized, Active, Selection, HasCapability;
  }

  /** One more grant, under an id of its own, never takes access away. */
  lemma {:induction false} MoreGrantsNeverRevoke(r: Request, g: Grant, k: nat)
    requires k <= |r.grants|
    requires forall h | h in r.grants :: h.id != g.id
    requires Decided(r).allowed
    ensures Decided(r.(grants := r.grants[..k] + [g] + r.grants[k..])).allowed
  {
    hide Decided, Covers, SortBy, ValidTargets, HasCapability;
    var r' := r.(grants := r.grants[..k] + [g] + r.grants[k..]);
    AllowedIsScoped(r);
    assert forall h :: h in r.grants ==> h in r'.grants by {
      assert r.grants == r.grants[..k] + r.grants[k..];
    }
    if r.capability in TARGET_SCOPED {
      AllowedExactly(r);
      AllowedExactly(r');
      forall i | 0 <= i < |r.targets| ensures Granted(r', r'.targets[i]) {
        var h :| h in r.grants && Grants(r, h, r.targets[i]);
        assert Grants(r', h, r.targets[i]);
      }
    } else {
      OrganizationAllowedExactly(r);
      OrganizationAllowedExactly(r');
      var h :| h in r.grants && GrantsOrganization(r, h);
      assert GrantsOrganization(r', h);
    }
    InsertedStaysDistinct(r, g, k);
  }

  lemma {:induction false} InsertedStaysDistinct(r: Request, g: Grant, k: nat)
    requires k <= |r.grants| && r.evaluatedAt.Canonical?
    requires forall h | h in r.grants :: h.id != g.id
    requires DistinctIds(Active(r))
    ensures DistinctIds(Active(r.(grants := r.grants[..k] + [g] + r.grants[k..])))
  {
    hide Covers, SortBy, Activated;
    var r' := r.(grants := r.grants[..k] + [g] + r.grants[k..]);
    var now := r.evaluatedAt.ms;
    var gs, gs' := ActiveOf(r.grants, r, now), ActiveOf(r'.grants, r', now);
    ActiveOfScalars(r'.grants, r, r', now);
    var front, back := r.grants[..k], r.grants[k..];
    assert front + back == r.grants && front + [g] + back == r'.grants;
    ActiveOfInserted(front, g, back, r, now);
    forall a | a in gs ensures a.id != g.id {
      ActiveMembers(r.grants, r, now, a);
      var h :| h in r.grants && Activated(h, r, now) == Some(a);
      ActivatedKeepsId(h, r, now);
    }
    ActivatedKeepsId(g, r, now);
    DistinctWithOneMore(gs, gs', ActiveOf([g], r, now));
  }

  lemma {:induction false} ActivatedKeepsId(g: Grant, r: Request, now: int)
    ensures Activated(g, r, now).Some? ==> Activated(g, r, now).value.id == g.id
  {
  }

  lemma {:induction false} DistinctWithOneMore(gs: seq<ActiveGrant>, gs': seq<ActiveGrant>, more: seq<ActiveGrant>)
    requires DistinctIds(SortBy(gs, GrantKey))
    requires |more| <= 1 && multiset(gs') == multiset(gs) + multiset(more)
    requires forall a, b | a in gs && b in more :: a.id != b.id
    ensures DistinctIds(SortBy(gs', GrantKey))
  {
    hide SortBy;
    SortByProperties(gs, GrantKey);
    SortByProperties(gs', GrantKey);
    var s, s' := SortBy(gs, GrantKey), SortBy(gs', GrantKey);
    SameMultisetSameMembers(s, gs);
    SameMultisetSameMembers(s', s + more);
    forall i, j | 0 <= i < j < |s'| ensures s'[i].id != s'[j].id {
      DistinctMultiplicity(s + more);
      if s'[i].id == s'[j].id {
        assert s'[i] in s + more && s'[j] in s + more;
        assert s'[i] == s'[j];
        RepeatedCountsTwice(s', i, j);
      }
    }
  }

  lemma {:induction false} DistinctMultiplicity(s: seq<ActiveGrant>)
    requires DistinctIds(s)
    ensures forall a :: multiset(s)[a] <= 1
  {
    if s != [] {
      DistinctMultiplicity(s[1..]);
      assert s == [s[0]] + s[1..];
      assert s[0] !in s[1..];
    }
  }

  lemma {:induction false} RepeatedCountsTwice(s: seq<ActiveGrant>, i: nat, j: nat)
    requires i < j < |s| && s[i] == s[j]
    ensures multiset(s)[s[i]] >= 2
  {
    assert s == s[..j] + s[j..];
    assert s[i] in s[..j] && s[j] in s[j..];
    assert multiset(s) == multiset(s[..j]) + multiset(s[j..]);
  }

  /**
   The evidence does not depend on when it was computed: while the same grants are active, the
   decision at a later time is the same, digest included.
   */
  lemma {:induction false} EvidenceIsStable(r: Request, later: int)
    requires r.evaluatedAt.Canonical?
    requires forall g | g in r.grants :: Activated(g, r, later) == Activated(g, r, r.evaluatedAt.ms)
    ensures Decided(r.(evaluatedAt := Canonical(later))) == Decided(r)
  {
    hide Selection, Normalized, Activated, HasCapability, SortBy, SortUnique;
    var r' := r.(evaluatedAt := Canonical(later));
    ActiveOfScalars(r.grants, r, r', later);
    SameActivationSameActive(r.grants, r, r.evaluatedAt.ms, later);
  }

  lemma {:induction false} SameActivationSameActive(gs: seq<Grant>, r: Request, now: int, later: int)
    requires forall g | g in gs :: Activated(g, r, later) == Activated(g, r, now)
    ensures ActiveOf(gs, r, now) == ActiveOf(gs, r, later)
  {
    if gs != [] {
      assert gs[0] in gs;
      SameActivationSameActive(gs[1..], r, now, later);
    }
  }
}
