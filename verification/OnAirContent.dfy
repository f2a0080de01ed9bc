/** What screens play is what was approved. */
module OnAirContent {
  import opened Common
  import opened Canonical
  import opened Releases
  import opened ReleaseInvariants
  import opened ReleaseRuns
  import opened Publication
  import opened ReleaseDelivery
  import Identity
  import opened IdentityEpochs

  ghost predicate AllBacked(s: Store) {
    forall a | a in s.assignments && a.state.Assigned? :: exists c :: c in s.candidates && Backs(c, a)
  }

  lemma {:induction false} PublishedSurvivesCollection(s: Store, org: Id, now: int, c: Candidate)
    requires CandidatesSound(s.candidates, s.releases, s.nextId) && c in s.candidates && c.stage.Published?
    ensures c in Collected(s, org, now).candidates
  {
    hide Garbage, KeepCandidates, KeepReleases, CandidateSound;
    var gone := Garbage(s.candidates, org, now);
    if c.id in gone { GarbageIsOld(s.candidates, org, now, c); }
  }

  lemma {:induction false} PublishedSurvivesCreate(
      s: Store, org: Id, data: CandidateInput, who: Caller, policy: Policy, now: int, c: Candidate)
    requires CandidatesSound(s.candidates, s.releases, s.nextId) && c in s.candidates && c.stage.Published?
    ensures c in Created(s, org, data, who, policy, now).0.candidates
  {
    hide Compact, Remember, Replay, Capable, Prepare, Collected, NewCandidate, ReleaseFor, FindByDigest,
         CandidatesSound;
    PublishedSurvivesCollection(s, org, now, c);
  }

  lemma {:induction false} OthersSurviveReplacement(cs: seq<Candidate>, k: nat, d: Candidate, c: Candidate)
    requires k < |cs| && c in cs && c != cs[k]
    ensures c in cs[k := d]
  {
    var i :| 0 <= i < |cs| && cs[i] == c;
    assert cs[k := d][i] == c;
  }

  lemma {:induction false} PublishedSurvivesTransition(
      s: Store, org: Id, op: Operation, id: Id, expected: Digest, who: Caller, now: int, c: Candidate)
    requires (op.Submit? || op.Approve?) && c in s.candidates && c.stage.Published?
    ensures c in Transitioned(s, org, op, id, expected, who, now).0.candidates
  {
    hide Compact, Remember, Replay, FindCandidate, ValidCandidateDigest, Advanced;
    var k := FindCandidate(s.candidates, org, id);
    var actor := Identity.FindActive(s.users, who.actor, org);
    if k.Some? && actor.Some? && c != s.candidates[k.value] {
      OthersSurviveReplacement(s.candidates, k.value, Advanced(s, s.candidates[k.value], op, actor.value, now).0, c);
    }
  }

  lemma {:induction false} PublishedSurvivesPublication(
      s: Store, org: Id, id: Id, expected: Digest, who: Caller, policy: Policy, now: int, c: Candidate)
    requires c in s.candidates && c.stage.Published?
    ensures c in PublishedBy(s, org, id, expected, who, policy, now).0.candidates
  {
    hide Compact, Remember, Replay, Capable, FindCandidate, ValidCandidateDigest, PublishedForm, NewAssignment,
         ScreensExist, FindRelease;
    var k := FindCandidate(s.candidates, org, id);
    if k.Some? && c != s.candidates[k.value] {
      OthersSurviveReplacement(s.candidates, k.value, PublishedForm(s, s.candidates[k.value], now), c);
    }
  }

  /** A published candidate is never changed or collected. */
  lemma {:induction false} PublishedStays(s: Store, e: Event, c: Candidate)
    requires Inv(s, e.at) && c in s.candidates && c.stage.Published?
    ensures c in Step(s, e).candidates
  {
    hide Created, Transitioned, PublishedBy, Withdraw, CandidatesSound, AssignmentsSound, SchedulesSound, RecordsSound,
         ReleasesSound;
    match e.request
    case CreateCandidate(org, who, data, policy) => PublishedSurvivesCreate(s, org, data, who, policy, e.at, c);
    case SubmitCandidate(org, who, id, expected) =>
      PublishedSurvivesTransition(s, org, Submit, id, expected, who, e.at, c);
    case ApproveCandidate(org, who, id, expected) =>
      PublishedSurvivesTransition(s, org, Approve, id, expected, who, e.at, c);
    case PublishCandidate(org, who, id, expected, policy) =>
      PublishedSurvivesPublication(s, org, id, expected, who, policy, e.at, c);
    case WithdrawSchedule(_, _, _) =>
    case MutateUser(_, _) =>
    case EditCatalog(_, _, _) =>
  }

  /** A new assignment is a withdrawal, or comes with the candidate it publishes. */
  lemma {:induction false} NewAssignmentIsBacked(s: Store, e: Event)
    requires |Step(s, e).assignments| > |s.assignments|
    ensures var t := Step(s, e);
            var a := t.assignments[|s.assignments|];
            a.state.Assigned? ==> exists c :: c in t.candidates && Backs(c, a)
  {
    hide Compact, Remember, Replay, Capable, Prepare, PublicationRefusal, TransitionRefusal, Advanced, FindCandidate,
         NewCandidate, ReleaseFor, FindByDigest, FindSchedule, Latest, FindRelease, CanonicalAssignment;
    if e.request.PublishCandidate? {
      var k := FindCandidate(s.candidates, e.request.org, e.request.id);
      if k.Some? {
        var d := PublishedForm(s, s.candidates[k.value], e.at);
        var a := NewAssignment(s, s.candidates[k.value], e.request.who.actor, e.at);
        assert Backs(d, a);
        assert s.candidates[k.value := d][k.value] == d;
      }
    }
  }

  lemma {:induction false} StepKeepsBacking(s: Store, e: Event)
    requires Inv(s, e.at) && AllBacked(s)
    ensures AllBacked(Step(s, e))
  {
    hide Inv, Step, Backs, Withdraw;
    var t := Step(s, e);
    var new_ := StepAssignments(s, e);
    forall a | a in t.assignments && a.state.Assigned? ensures exists c :: c in t.candidates && Backs(c, a) {
      if a in s.assignments {
        var c :| c in s.candidates && Backs(c, a);
        BackingIsPublished(c, a);
        PublishedStays(s, e, c);
      } else {
        NewAssignmentIsBacked(s, e);
      }
    }
  }

  lemma {:induction false} BackingIsPublished(c: Candidate, a: Assignment)
    requires Backs(c, a)
    ensures c.stage.Published?
  {
  }

  lemma {:induction false} AssignmentsAreBacked(s: Store, from: int, es: seq<Event>, n: nat)
    requires Fresh(s) && Clocked(from, es) && n <= |es|
    ensures AllBacked(StateAt(s, es, n))
  {
    hide Inv, Step;
    FreshIsSound(s, from);
    if n > 0 {
      AssignmentsAreBacked(s, from, es, n - 1);
      ReachableIsSound(s, from, es, n - 1);
      StepKeepsBacking(StateAt(s, es, n - 1), es[n - 1]);
    }
  }

  /** The digest of a backed assignment's candidate covers everything that is shown. */
  lemma {:induction false} BackedContent(s: Store, now: int, c: Candidate, r: Release, a: Assignment)
    requires Inv(s, now) && c in s.candidates && Backs(c, a) && FindRelease(s.releases, a.org, a.release) == Some(r)
    ensures r.content.items == c.items && r.digest == c.releaseDigest
    ensures c.digest == OfCandidate(CanonicalCandidate(r.digest, a.schedule, a.screens, c.expiresAt))
  {
    hide AssignmentsSound, SchedulesSound, RecordsSound;
    assert HasRelease(s.releases, c.org, c.release, c.releaseDigest);
  }

  /**
   From the wall back to the author's request: whatever a screen shows in any reachable store, its
   items, schedule and screens are those of a published candidate, which its author asked for; and
   that candidate's digest, which covers them all, was submitted by its author, approved by somebody
   else and then published, with no identity mutation touching the approver in between.
   */
  lemma {:induction false} OnAirMeansApproved(s: Store, from: int, es: seq<Event>, n: nat, org: Id, screen: int,
      at: int, open: OpenWindow, r: Release, a: Assignment)
    returns (c: Candidate, h: nat, i: nat, j: nat, k: nat)
    requires Fresh(s) && UniqueRows(s.users) && Clocked(from, es) && n <= |es|
    requires var t := StateAt(s, es, n); (r, a) in ActiveReleases(t, t.schedules, org, screen, at, open)
    ensures c in StateAt(s, es, n).candidates && Backs(c, a)
    ensures r.content.items == c.items
    ensures c.digest == OfCandidate(CanonicalCandidate(r.digest, a.schedule, a.screens, c.expiresAt))
    ensures screen in a.screens && a.schedule.startsAt <= at
    ensures h < i < j < k < n
    ensures CreatedBy(s, es, h, c) && SubmittedBy(s, es, i, c) && ApprovedBy(s, es, j, c)
            && PutOnAirBy(s, es, k, c)
    ensures !TouchedBetween(s, es, j, k, c.approval.value.approver, c.org)
  {
    hide Inv, StateAt, Fresh, UniqueRows, ActiveReleases, CreatedBy, SubmittedBy, ApprovedBy, PutOnAirBy,
         ValidAssignmentDigest,
         Backs, FindRelease, Latest;
    var t := StateAt(s, es, n);
    FreshIsSound(s, from);
    ReachableIsSound(s, from, es, n);
    ActiveMeansPlaying(t, ClockAt(from, es, n), org, screen, at, open, r, a);
    AssignmentsAreBacked(s, from, es, n);
    c :| c in t.candidates && Backs(c, a);
    BackingIsPublished(c, a);
    BackedContent(t, ClockAt(from, es, n), c, r, a);
    h, i, j, k := PublicationIsFresh(s, from, es, n, c);
  }
}
