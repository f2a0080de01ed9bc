/**
 What the scoped policy answers, and on what evidence, in terms of the request's fields alone: its
 reasons in their order, the targets it lists and the grants it rests on.
 */
module ScopedDecisions {
  import opened Common
  import opened ScopedAuthorization

  // ------------------------------------------------------------------ the terms

  ghost predicate MayHold(role: Role, capability: Capability) {
    match capability
    case ScreenRead => role in {Viewer, Publisher, Admin, Owner}
    case LocationRead => role in {Viewer, Publisher, Admin, Owner}
    case MediaRead => role in {Viewer, Publisher, Admin, Owner}
    case PlaylistRead => role in {Viewer, Publisher, Admin, Owner}
    case ScheduleRead => role in {Viewer, Publisher, Admin, Owner}
    case CandidateRead => role in {Viewer, Publisher, Admin, Owner}
    case CandidateCreate => role in {Publisher, Admin, Owner}
    case CandidateSubmit => role in {Publisher, Admin, Owner}
    case ReleasePublish => role in {Publisher, Admin, Owner}
    case ReleaseWithdraw => role in {Publisher, Admin, Owner}
    case ReleaseApprove => role in {Admin, Owner}
    case CredentialRevoke => role in {Admin, Owner}
    case CredentialReenroll => role in {Admin, Owner}
    case AuthorizationManage => role == Owner
    case EmergencyActivate => false
    case EmergencyClear => false
    case OtherCapability(_) => false
  }

  ghost predicate OfOrganization(capability: Capability) { capability in {LocationRead, MediaRead, PlaylistRead} }

  ghost predicate OfScreens(capability: Capability) {
    capability in {ScreenRead, ScheduleRead, CandidateRead, CandidateCreate, CandidateSubmit, ReleaseApprove,
                   ReleasePublish, ReleaseWithdraw, CredentialRevoke, CredentialReenroll}
  }

  ghost predicate WellFormed(r: Request) {
    && r.organization != 0 && r.actor != 0 && r.membership != 0 && 0 <= r.epoch <= 9_007_199_254_740_991
    && r.evaluatedAt.Canonical?
  }

  ghost predicate TargetsWellFormed(r: Request) {
    && (forall t | t in r.targets ::
          t.organization == r.organization && t.screen != 0 && t.location != Some(0) && 0 !in t.groups)
    && (forall i: nat, j: nat | i < j < |r.targets| :: r.targets[i].screen != r.targets[j].screen)
  }

  /** The grant is the actor's, for the capability, well formed, begun, not over and not revoked. */
  ghost predicate InForce(r: Request, g: Grant)
    requires r.evaluatedAt.Canonical?
  {
    && g.id != 0 && g.organization == r.organization && g.user == r.actor
    && g.membership == r.membership && g.membership != 0
    && g.capability == r.capability && !g.revoked
    && g.startsAt.Canonical? && g.startsAt.ms <= r.evaluatedAt.ms
    && (g.expiresAt.Some? ==> g.expiresAt.value.Canonical? && r.evaluatedAt.ms < g.expiresAt.value.ms)
    && match g.scope
       case Organization => g.scopeId == None
       case Location => g.scopeId.Some? && g.scopeId != Some(0)
       case ScreenGroup => g.scopeId.Some? && g.scopeId != Some(0)
       case Screen => g.scopeId.Some? && g.scopeId != Some(0)
       case UnknownScope => false
  }

  ghost predicate Reaches(g: Grant, screen: Id, location: Option<Id>, groups: seq<int>) {
    match g.scope
    case Organization => true
    case Location => location.Some? && g.scopeId == location
    case ScreenGroup => g.scopeId.Some? && g.scopeId.value in groups
    case Screen => g.scopeId == Some(screen)
    case UnknownScope => false
  }

  ghost predicate IdsDiffer(r: Request)
    requires r.evaluatedAt.Canonical?
  {
    forall i: nat, j: nat | i < j < |r.grants| && InForce(r, r.grants[i]) && InForce(r, r.grants[j]) ::
      r.grants[i].id != r.grants[j].id
  }

  ghost predicate Reached(r: Request, t: Target)
    requires r.evaluatedAt.Canonical?
  {
    exists g :: g in r.grants && InForce(r, g) && Reaches(g, t.screen, t.location, t.groups)
  }

  ghost predicate OrganizationReached(r: Request)
    requires r.evaluatedAt.Canonical?
  {
    exists g :: g in r.grants && InForce(r, g) && g.scope == Organization
  }

  // ------------------------------------------------------------------ the reason

  ghost function ReasonFor(r: Request): Reason {
    if !WellFormed(r) || !TargetsWellFormed(r) then InvalidContext
    else if r.capability.OtherCapability? then UnknownCapability
    else if !MayHold(r.role, r.capability) then RoleCeilingDenied
    else if !IdsDiffer(r) then InvalidContext
    else if OfOrganization(r.capability) then
      if r.targets != [] then OrganizationScopeRequired
      else if OrganizationReached(r) then Allowed else ScopeDenied
    else if OfScreens(r.capability) then
      if r.targets == [] then TargetsRequired
      else if forall t | t in r.targets :: Reached(r, t) then Allowed else ScopeDenied
    else ScopeDenied
  }

  /** The grant as it is shown in the evidence. */
  ghost predicate Shows(a: ActiveGrant, g: Grant) {
    && a.id == g.id && a.membership == g.membership && a.scope == g.scope && a.scopeId == g.scopeId
    && g.startsAt == Canonical(a.startsAt)
    && (g.expiresAt == if a.expiresAt.Some? then Some(Canonical(a.expiresAt.value)) else None)
  }

  lemma {:induction false} ActivatedExactly(r: Request, g: Grant, a: ActiveGrant)
    requires r.evaluatedAt.Canonical?
    ensures Activated(g, r, r.evaluatedAt.ms) == Some(a) <==> InForce(r, g) && Shows(a, g)
    ensures Activated(g, r, r.evaluatedAt.ms).Some? <==> InForce(r, g)
  {
  }

  lemma {:induction false} CoversExactly(r: Request, g: Grant, a: ActiveGrant, t: NormalTarget)
    requires r.evaluatedAt.Canonical? && InForce(r, g) && Shows(a, g)
    ensures Covers(a, t) <==> Reaches(g, t.screen, t.location, t.groups)
  {
  }

  lemma {:induction false} CapabilitiesAre(role: Role, capability: Capability)
    ensures HasCapability(role, capability) <==> MayHold(role, capability)
    ensures capability in ORGANIZATION_SCOPED <==> OfOrganization(capability)
    ensures capability in TARGET_SCOPED <==> OfScreens(capability)
    ensures MayHold(role, capability) ==>
              OfOrganization(capability) || OfScreens(capability) || capability.AuthorizationManage?
    ensures capability.AuthorizationManage? ==> !OfOrganization(capability) && !OfScreens(capability)
  {
  }

  lemma {:induction false} ValidTargetsAre(r: Request)
    ensures ValidTargets(r.organization, r.targets) <==> TargetsWellFormed(r)
  {
    if ValidTargets(r.organization, r.targets) {
      forall t | t in r.targets ensures ValidTarget(r.organization, t) && 0 !in t.groups {
        var i :| 0 <= i < |r.targets| && r.targets[i] == t;
        assert ValidTarget(r.organization, r.targets[i]);
      }
    }
    if TargetsWellFormed(r) {
      forall i | 0 <= i < |r.targets| ensures ValidTarget(r.organization, r.targets[i]) {
        assert r.targets[i] in r.targets;
      }
    }
  }

  /** Grants in force under one id are also active ones under one id, and the other way round. */
  lemma {:induction false} ActiveIdsDiffer(r: Request)
    requires r.evaluatedAt.Canonical?
    ensures DistinctIds(Active(r)) <==> IdsDiffer(r)
  {
    hide SortBy, InForce, Activated;
    var now := r.evaluatedAt.ms;
    var gs := ActiveOf(r.grants, r, now);
    InForceIds(r, r.grants);
    SortByProperties(gs, GrantKey);
    if DistinctIds(gs) { IdsByMultiset(gs, Active(r)); }
    if DistinctIds(Active(r)) { IdsByMultiset(Active(r), gs); }
  }

  /** Ids differ in one list exactly when they do in any other of the same elements. */
  lemma {:induction false} IdsByMultiset(gs: seq<ActiveGrant>, hs: seq<ActiveGrant>)
    requires multiset(gs) == multiset(hs) && DistinctIds(gs)
    ensures DistinctIds(hs)
  {
    SameMultisetSameMembers(gs, hs);
    DistinctMultiplicity(gs);
    forall i, j | 0 <= i < j < |hs| ensures hs[i].id != hs[j].id {
      if hs[i].id == hs[j].id {
        assert hs[i] in gs && hs[j] in gs;
        RepeatedCountsTwice(hs, i, j);
      }
    }
  }

  lemma {:induction false} InForceIds(r: Request, gs: seq<Grant>)
    requires r.evaluatedAt.Canonical?
    ensures DistinctIds(ActiveOf(gs, r, r.evaluatedAt.ms)) <==>
              forall i: nat, j: nat | i < j < |gs| && InForce(r, gs[i]) && InForce(r, gs[j]) :: gs[i].id != gs[j].id
  {
    hide InForce, Activated;
    if gs != [] {
      var now, rest := r.evaluatedAt.ms, gs[1..];
      InForceIds(r, rest);
      var first, others := Activated(gs[0], r, now), ActiveOf(rest, r, now);
      FirstIdIs(r, gs);
      assert forall j: nat | 0 < j < |gs| :: gs[j] == rest[j - 1];
      if first.Some? {
        assert ActiveOf(gs, r, now) == [first.value] + others;
        ConsIds(first.value, others);
      } else {
        assert ActiveOf(gs, r, now) == others;
      }
      if forall i: nat, j: nat | i < j < |gs| && InForce(r, gs[i]) && InForce(r, gs[j]) :: gs[i].id != gs[j].id {
        forall i: nat, j: nat | i < j < |rest| && InForce(r, rest[i]) && InForce(r, rest[j])
          ensures rest[i].id != rest[j].id
        {
          assert gs[i + 1].id != gs[j + 1].id;
        }
      }
    }
  }

  lemma {:induction false} ConsIds(a: ActiveGrant, gs: seq<ActiveGrant>)
    ensures DistinctIds([a] + gs) <==> DistinctIds(gs) && forall b | b in gs :: b.id != a.id
  {
    var all := [a] + gs;
    assert forall i | 0 <= i < |gs| :: all[i + 1] == gs[i];
    if DistinctIds(all) {
      forall b | b in gs ensures b.id != a.id {
        var i :| 0 <= i < |gs| && gs[i] == b;
        assert all[0].id != all[i + 1].id;
      }
      forall i, j | 0 <= i < j < |gs| ensures gs[i].id != gs[j].id { assert all[i + 1].id != all[j + 1].id; }
    }
  }

  /** An id active behind the first grant is the first one's exactly when a later grant in force has it. */
  lemma {:induction false} FirstIdIs(r: Request, gs: seq<Grant>)
    requires r.evaluatedAt.Canonical? && gs != []
    ensures var now := r.evaluatedAt.ms;
            var first := Activated(gs[0], r, now);
            && (first.Some? <==> InForce(r, gs[0]))
            && (first.Some? ==>
                  ((forall b | b in ActiveOf(gs[1..], r, now) :: b.id != first.value.id) <==>
                     forall j: nat | 0 < j < |gs| && InForce(r, gs[j]) :: gs[j].id != gs[0].id))
  {
    hide InForce, Activated;
    var now, rest := r.evaluatedAt.ms, gs[1..];
    var first, others := Activated(gs[0], r, now), ActiveOf(rest, r, now);
    forall g, a ensures Activated(g, r, now) == Some(a) <==> InForce(r, g) && Shows(a, g) { ActivatedExactly(r, g, a); }
    forall g ensures Activated(g, r, now).Some? <==> InForce(r, g) {
      ActivatedExactly(r, g, ActiveGrant(0, 0, Organization, None, 0, None));
    }
    forall a ensures a in others <==> exists g :: g in rest && Activated(g, r, now) == Some(a) {
      ActiveMembers(rest, r, now, a);
    }
    if first.Some? {
      if forall b | b in others :: b.id != first.value.id {
        forall j: nat | 0 < j < |gs| && InForce(r, gs[j]) ensures gs[j].id != gs[0].id {
          assert gs[j] == rest[j - 1] && gs[j] in rest;
          var a := Activated(gs[j], r, now).value;
          assert a in others && a.id == gs[j].id;
        }
      }
      if forall j: nat | 0 < j < |gs| && InForce(r, gs[j]) :: gs[j].id != gs[0].id {
        forall b | b in others ensures b.id != first.value.id {
          var g :| g in rest && Activated(g, r, now) == Some(b);
          var j :| 0 <= j < |rest| && rest[j] == g;
          assert gs[j + 1] == g;
        }
      }
    }
  }

  lemma {:induction false} GrantedMeansReached(r: Request, t: Target)
    requires r.evaluatedAt.Canonical?
    ensures Granted(r, t) <==> Reached(r, t)
  {
    hide InForce, Activated, Covers, SortUnique;
    forall g | g in r.grants ensures Grants(r, g, t) <==> InForce(r, g) && Reaches(g, t.screen, t.location, t.groups) {
      ActivatedExactly(r, g, ActiveGrant(0, 0, Organization, None, 0, None));
      if InForce(r, g) {
        var a := Activated(g, r, r.evaluatedAt.ms).value;
        ActivatedExactly(r, g, a);
        CoversExactly(r, g, a, NormalTargetOf(t));
      }
    }
  }

  lemma {:induction false} OrganizationGrantedMeansReached(r: Request)
    requires r.evaluatedAt.Canonical?
    ensures GrantedOrganizationWide(r) <==> OrganizationReached(r)
  {
    hide InForce, Activated;
    forall g | g in r.grants ensures GrantsOrganization(r, g) <==> InForce(r, g) && g.scope == Organization {
      ActivatedExactly(r, g, ActiveGrant(0, 0, Organization, None, 0, None));
      if InForce(r, g) { ActivatedExactly(r, g, Activated(g, r, r.evaluatedAt.ms).value); }
    }
  }

  lemma {:induction false} ContextIs(r: Request)
    ensures ValidScalars(r) <==> WellFormed(r)
    ensures ValidContext(r) <==> WellFormed(r) && TargetsWellFormed(r) && IdsDiffer(r)
  {
    hide DistinctIds, Active, ValidTargets, TargetsWellFormed, IdsDiffer;
    ValidTargetsAre(r);
    if r.evaluatedAt.Canonical? { ActiveIdsDiffer(r); }
  }

  /** The reason of every decision, and that it allows exactly when the reason says so. */
  lemma {:induction false} ReasonDecides(r: Request)
    ensures Decided(r).reason == ReasonFor(r)
    ensures Decided(r).allowed <==> ReasonFor(r) == Allowed
  {
    hide Normalized, Active, Selection, SortBy, SortUnique, InForce, Activated, Covers, HasCapability, MayHold,
         IdsDiffer, TargetsWellFormed, OfOrganization, OfScreens, Granted, Reached, GrantedOrganizationWide,
         OrganizationReached, DistinctIds;
    ContextIs(r);
    ValidTargetsAre(r);
    CapabilitiesAre(r.role, r.capability);
    NormalizedAre(r);
    if WellFormed(r) {
      ActiveIdsDiffer(r);
      OrganizationGrantedMeansReached(r);
      OrganizationWideMeansGranted(r);
      if r.capability in TARGET_SCOPED && ValidTargets(r.organization, r.targets) { SelectedMeansReached(r); }
    }
  }

  lemma {:induction false} NormalizedAre(r: Request)
    ensures var n := Normalized(r.organization, r.targets);
            && (n.Some? <==> ValidTargets(r.organization, r.targets))
            && (n.Some? ==> (n.value == [] <==> r.targets == []))
  {
    hide ValidTargets;
    if ValidTargets(r.organization, r.targets) { NormalizedMembers(r); }
  }

  lemma {:induction false} SelectedMeansReached(r: Request)
    requires r.evaluatedAt.Canonical? && ValidTargets(r.organization, r.targets)
    ensures Selection(Active(r), Normalized(r.organization, r.targets).value).Some? <==>
              forall t | t in r.targets :: Reached(r, t)
  {
    hide Active, Covered, Reached, Granted, NormalTargetOf, ValidTargets;
    NormalizedMembers(r);
    var ns := Normalized(r.organization, r.targets).value;
    forall t | t in r.targets
      ensures NormalTargetOf(t) in ns && (Covered(Active(r), NormalTargetOf(t)) <==> Reached(r, t))
    {
      var i :| 0 <= i < |r.targets| && r.targets[i] == t;
      CoveredMeansGranted(r, t);
      GrantedMeansReached(r, t);
    }
    forall n | n in ns ensures exists t :: t in r.targets && n == NormalTargetOf(t) {
      var i :| 0 <= i < |r.targets| && n == NormalTargetOf(r.targets[i]);
      assert r.targets[i] in r.targets;
    }
  }

  // ------------------------------------------------------------------ the evidence

  /** Well-formed targets are listed one for one, by screen, each with its groups once and in order. */
  ghost predicate TargetsListed(ts: seq<Target>, ns: seq<NormalTarget>) {
    && |ns| == |ts|
    && (forall i: nat, j: nat | i < j < |ns| :: ns[i].screen < ns[j].screen)
    && forall n | n in ns ::
         exists t ::
           && t in ts && n.screen == t.screen && n.location == t.location
           && Increasing(n.groups) && forall g :: g in n.groups <==> g in t.groups
  }

  /** Of the grants in force that reach the target, the one with the least id, as it is shown. */
  ghost predicate FirstToReach(r: Request, n: NormalTarget, a: ActiveGrant)
    requires r.evaluatedAt.Canonical?
  {
    && (exists g :: g in r.grants && InForce(r, g) && Shows(a, g) && Reaches(g, n.screen, n.location, n.groups))
    && forall h | h in r.grants && InForce(r, h) && Reaches(h, n.screen, n.location, n.groups) :: a.id <= h.id
  }

  ghost predicate FirstForOrganization(r: Request, a: ActiveGrant)
    requires r.evaluatedAt.Canonical?
  {
    && (exists g :: g in r.grants && InForce(r, g) && Shows(a, g) && g.scope == Organization)
    && forall h | h in r.grants && InForce(r, h) && h.scope == Organization :: a.id <= h.id
  }

  /** What an allowance rests on: for each target, or for the organization, the first grant that reaches it. */
  ghost predicate RestsOn(r: Request, ns: seq<NormalTarget>, grants: seq<ActiveGrant>)
    requires r.evaluatedAt.Canonical?
  {
    if OfOrganization(r.capability) then |grants| == 1 && FirstForOrganization(r, grants[0])
    else
      exists picks: seq<ActiveGrant> ::
        && |picks| == |ns| && multiset(picks) == multiset(grants)
        && forall k: nat | k < |ns| :: FirstToReach(r, ns[k], picks[k])
  }

  /** What the evidence of a decision holds, and which ids it names. */
  ghost predicate EvidenceIs(r: Request, d: Decision) {
    var e := d.evidence;
    && e.organization == r.organization && e.actor == r.actor && e.membership == r.membership && e.role == r.role
    && e.epoch == r.epoch && e.capability == r.capability && e.result == ReasonFor(r)
    && (if TargetsWellFormed(r) then TargetsListed(r.targets, e.targets) else e.targets == [])
    && (forall i: nat, j: nat | i < j < |e.grants| :: e.grants[i].id <= e.grants[j].id)
    && (if ReasonFor(r) == Allowed then r.evaluatedAt.Canonical? && RestsOn(r, e.targets, e.grants) else e.grants == [])
    && Increasing(d.matching) && forall id :: id in d.matching <==> exists a :: a in e.grants && a.id == id
  }

  lemma {:induction false} DecideIs(r: Request, targets: seq<NormalTarget>, reason: Reason, grants: seq<ActiveGrant>)
    ensures var d := Decide(r, targets, reason, grants);
            var e := d.evidence;
            && e.organization == r.organization && e.actor == r.actor && e.membership == r.membership
            && e.role == r.role && e.epoch == r.epoch && e.capability == r.capability && e.result == reason
            && e.targets == targets && multiset(e.grants) == multiset(grants)
            && (forall i: nat, j: nat | i < j < |e.grants| :: e.grants[i].id <= e.grants[j].id)
            && Increasing(d.matching) && forall id :: id in d.matching <==> exists a :: a in e.grants && a.id == id
  {
    hide SortBy, SortUnique;
    var sorted := SortBy(grants, GrantKey);
    SortByProperties(grants, GrantKey);
    SameMultisetSameMembers(sorted, grants);
    assert forall i: nat, j: nat | i < j < |sorted| :: GrantKey(sorted[i]) <= GrantKey(sorted[j]);
    var ids := Ids(grants);
    forall id ensures id in SortUnique(ids) <==> exists a :: a in sorted && a.id == id {
      if id in ids {
        var k :| 0 <= k < |ids| && ids[k] == id;
        assert grants[k] in sorted && grants[k].id == id;
      }
      if exists a :: a in sorted && a.id == id {
        var a :| a in sorted && a.id == id;
        var k :| 0 <= k < |grants| && grants[k] == a;
        assert ids[k] == id;
      }
    }
  }

  lemma {:induction false} NormalizedIsListed(r: Request)
    requires ValidTargets(r.organization, r.targets)
    ensures TargetsListed(r.targets, Normalized(r.organization, r.targets).value)
  {
    hide SortBy, SortUnique, ValidTarget;
    var raw, ns := NormalTargetsOf(r.targets), Normalized(r.organization, r.targets).value;
    NormalizedMembers(r);
    SortByProperties(raw, TargetKey);
    SameMultisetSameMembers(ns, raw);
    forall n | n in ns
      ensures exists t ::
                && t in r.targets && n.screen == t.screen && n.location == t.location
                && Increasing(n.groups) && forall g :: g in n.groups <==> g in t.groups
    {
      var i :| 0 <= i < |r.targets| && n == NormalTargetOf(r.targets[i]);
      assert r.targets[i] in r.targets;
    }
    forall i: nat, j: nat | i < j < |ns| ensures ns[i].screen < ns[j].screen {
      assert TargetKey(ns[i]) <= TargetKey(ns[j]);
      ScreensOnce(r.targets, raw, ns, i, j);
    }
  }

  /** Sorting does not bring one screen into the list twice. */
  lemma {:induction false} ScreensOnce(
      ts: seq<Target>, raw: seq<NormalTarget>, ns: seq<NormalTarget>, i: nat, j: nat)
    requires DistinctScreens(ts) && raw == NormalTargetsOf(ts) && multiset(ns) == multiset(raw)
    requires i < j < |ns|
    ensures ns[i].screen != ns[j].screen
  {
    hide SortUnique;
    SameMultisetSameMembers(ns, raw);
    assert ns[i] in raw && ns[j] in raw;
    var a :| 0 <= a < |raw| && raw[a] == ns[i];
    var b :| 0 <= b < |raw| && raw[b] == ns[j];
    assert raw[a].screen == ts[a].screen && raw[b].screen == ts[b].screen;
    OnceIn(raw, ts, a);
    if a == b { TwiceIn(ns, i, j); }
  }

  lemma {:induction false} TwiceIn(ns: seq<NormalTarget>, i: nat, j: nat)
    requires i < j < |ns| && ns[i] == ns[j]
    ensures multiset(ns)[ns[i]] >= 2
  {
    assert ns == ns[..j] + ns[j..];
    assert ns[i] in ns[..j] && ns[j] in ns[j..];
    assert multiset(ns) == multiset(ns[..j]) + multiset(ns[j..]);
  }

  lemma {:induction false} OnceIn(raw: seq<NormalTarget>, ts: seq<Target>, a: nat)
    requires DistinctScreens(ts) && raw == NormalTargetsOf(ts) && a < |raw|
    ensures multiset(raw)[raw[a]] == 1
  {
    hide SortUnique;
    var front, back := raw[..a], raw[a + 1..];
    assert raw == front + [raw[a]] + back;
    forall k | 0 <= k < |raw| && k != a ensures raw[k] != raw[a] {
      assert raw[k].screen == ts[k].screen && raw[a].screen == ts[a].screen;
    }
    assert raw[a] !in front && raw[a] !in back;
    assert multiset(raw) == multiset(front) + multiset{raw[a]} + multiset(back);
  }

  /** The grant picked for a target is the first in force, by id, that reaches it. */
  lemma {:induction false} CoveringIsFirst(r: Request, n: NormalTarget)
    requires r.evaluatedAt.Canonical?
    ensures var a := FirstCovering(Active(r), n); a.Some? ==> FirstToReach(r, n, a.value)
  {
    hide SortBy, InForce, Activated, Covers, Reaches, Shows;
    var now, gs := r.evaluatedAt.ms, ActiveOf(r.grants, r, r.evaluatedAt.ms);
    SortByProperties(gs, GrantKey);
    SameMultisetSameMembers(Active(r), gs);
    forall a ensures a in Active(r) <==> exists g :: g in r.grants && Activated(g, r, now) == Some(a) {
      ActiveMembers(r.grants, r, now, a);
    }
    forall g, a ensures Activated(g, r, now) == Some(a) <==> InForce(r, g) && Shows(a, g) { ActivatedExactly(r, g, a); }
    forall g, a | InForce(r, g) && Shows(a, g) ensures Covers(a, n) <==> Reaches(g, n.screen, n.location, n.groups) {
      CoversExactly(r, g, a, n);
    }
    var found := FirstCovering(Active(r), n);
    if found.Some? {
      FirstCoveringIsLeast(Active(r), n);
      forall h | h in r.grants && InForce(r, h) && Reaches(h, n.screen, n.location, n.groups)
        ensures found.value.id <= h.id
      {
        ActivatedExactly(r, h, found.value);
        var b := Activated(h, r, now).value;
        ActivatedKeepsId(h, r, now);
        assert b in Active(r) && Covers(b, n);
      }
    }
  }

  lemma {:induction false} FirstCoveringIsLeast(gs: seq<ActiveGrant>, n: NormalTarget)
    requires OrderedBy(gs, GrantKey)
    ensures var a := FirstCovering(gs, n);
            a.Some? ==> forall b | b in gs && Covers(b, n) :: a.value.id <= b.id
  {
    hide Covers;
    if gs != [] {
      RestStaysOrdered(gs, GrantKey);
      FirstCoveringIsLeast(gs[1..], n);
      if Covers(gs[0], n) {
        forall b | b in gs ensures gs[0].id <= b.id {
          var k :| 0 <= k < |gs| && gs[k] == b;
          assert k > 0 ==> GrantKey(gs[0]) <= GrantKey(gs[k]);
        }
      } else {
        assert forall b | b in gs && Covers(b, n) :: b in gs[1..];
      }
    }
  }

  lemma {:induction false} SelectionPicks(active: seq<ActiveGrant>, ns: seq<NormalTarget>)
    ensures var picks := Selection(active, ns);
            picks.Some? ==>
              |picks.value| == |ns| && forall k: nat | k < |ns| :: FirstCovering(active, ns[k]) == Some(picks.value[k])
  {
    hide Covers, FirstCovering;
    if ns != [] {
      SelectionPicks(active, ns[..|ns| - 1]);
    }
  }

  lemma {:induction false} OrganizationWideIsFirst(r: Request)
    requires r.evaluatedAt.Canonical?
    ensures var a := FirstOrganizationWide(Active(r)); a.Some? ==> FirstForOrganization(r, a.value)
  {
    hide SortBy, InForce, Activated, Shows;
    var now, gs := r.evaluatedAt.ms, ActiveOf(r.grants, r, r.evaluatedAt.ms);
    SortByProperties(gs, GrantKey);
    SameMultisetSameMembers(Active(r), gs);
    forall a ensures a in Active(r) <==> exists g :: g in r.grants && Activated(g, r, now) == Some(a) {
      ActiveMembers(r.grants, r, now, a);
    }
    forall g, a ensures Activated(g, r, now) == Some(a) <==> InForce(r, g) && Shows(a, g) { ActivatedExactly(r, g, a); }
    forall g, a | InForce(r, g) && Shows(a, g) ensures a.scope == g.scope && a.id == g.id { ShownAs(a, g); }
    var found := FirstOrganizationWide(Active(r));
    if found.Some? {
      FirstOrganizationWideIsLeast(Active(r));
      forall h | h in r.grants && InForce(r, h) && h.scope == Organization ensures found.value.id <= h.id {
        ActivatedExactly(r, h, found.value);
        var b := Activated(h, r, now).value;
        assert b in Active(r);
      }
    }
  }

  lemma {:induction false} ShownAs(a: ActiveGrant, g: Grant)
    requires Shows(a, g)
    ensures a.scope == g.scope && a.id == g.id
  {
  }

  lemma {:induction false} FirstOrganizationWideIsLeast(gs: seq<ActiveGrant>)
    requires OrderedBy(gs, GrantKey)
    ensures var a := FirstOrganizationWide(gs);
            a.Some? ==> forall b | b in gs && b.scope == Organization :: a.value.id <= b.id
  {
    if gs != [] {
      RestStaysOrdered(gs, GrantKey);
      FirstOrganizationWideIsLeast(gs[1..]);
      if gs[0].scope.Organization? {
        forall b | b in gs ensures gs[0].id <= b.id {
          var k :| 0 <= k < |gs| && gs[k] == b;
          assert k > 0 ==> GrantKey(gs[0]) <= GrantKey(gs[k]);
        }
      } else {
        assert forall b | b in gs && b.scope == Organization :: b in gs[1..];
      }
    }
  }

  /** The grants a decision is made with: those an allowance rests on, and none otherwise. */
  lemma {:induction false} DecidedWith(r: Request) returns (grants: seq<ActiveGrant>)
    ensures var n := Normalized(r.organization, r.targets);
            var targets := if n.Some? then n.value else [];
            && Decided(r) == Decide(r, targets, ReasonFor(r), grants)
            && (ReasonFor(r) == Allowed ==> r.evaluatedAt.Canonical? && RestsOn(r, targets, grants))
            && (ReasonFor(r) != Allowed ==> grants == [])
  {
    hide Normalized, Active, SortBy, SortUnique, Covers, HasCapability, Decide, ReasonFor, FirstToReach,
         FirstForOrganization, DistinctIds, ValidScalars;
    ReasonDecides(r);
    ReasonOfDecide(r);
    AllowedIsCanonical(r);
    CapabilitiesAre(r.role, r.capability);
    var n := Normalized(r.organization, r.targets);
    var targets := if n.Some? then n.value else [];
    grants := [];
    if ReasonFor(r) == Allowed {
      if r.capability in ORGANIZATION_SCOPED {
        grants := [FirstOrganizationWide(Active(r)).value];
        OrganizationWideIsFirst(r);
      } else {
        var picks := Selection(Active(r), targets).value;
        grants := picks;
        SelectionPicks(Active(r), targets);
        forall k: nat | k < |targets| ensures FirstToReach(r, targets[k], picks[k]) { CoveringIsFirst(r, targets[k]); }
      }
    }
  }

  lemma {:induction false} ReasonOfDecide(r: Request)
    ensures forall targets, reason, grants :: Decide(r, targets, reason, grants).reason == reason
  {
    hide SortBy, SortUnique;
  }

  lemma {:induction false} AllowedIsCanonical(r: Request)
    ensures ReasonFor(r) == Allowed ==> r.evaluatedAt.Canonical?
  {
    hide TargetsWellFormed, MayHold, IdsDiffer;
  }

  /**
   The evidence of every decision: the request's own scalars, the reason, the well-formed targets by
   screen, and exactly the grants an allowance rests on, by id; and the ids named are theirs.
   */
  lemma {:induction false} EvidenceDecides(r: Request)
    ensures EvidenceIs(r, Decided(r))
  {
    hide Normalized, Decided, Decide, ReasonFor, TargetsWellFormed, TargetsListed, FirstToReach, FirstForOrganization;
    var grants := DecidedWith(r);
    var n := Normalized(r.organization, r.targets);
    var targets := if n.Some? then n.value else [];
    DecideIs(r, targets, ReasonFor(r), grants);
    ValidTargetsAre(r);
    NormalizedAre(r);
    if n.Some? { NormalizedIsListed(r); }
    RestsOnAny(r, targets, grants, Decided(r).evidence.grants);
  }

  lemma {:induction false} RestsOnAny(r: Request, ns: seq<NormalTarget>, gs: seq<ActiveGrant>, hs: seq<ActiveGrant>)
    requires multiset(gs) == multiset(hs)
    ensures r.evaluatedAt.Canonical? && RestsOn(r, ns, gs) ==> RestsOn(r, ns, hs)
    ensures gs == [] ==> hs == []
  {
    hide FirstToReach, FirstForOrganization;
    SameMultisetSameMembers(gs, hs);
    if |gs| == 1 { assert gs[0] in hs; }
  }
}
