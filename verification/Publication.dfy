/** Where published candidates come from: four eyes, one digest, and an approver nobody touched meanwhile. */
module Publication {
  import opened Common
  import opened Canonical
  import opened Releases
  import opened ReleaseInvariants
  import opened ReleaseRuns
  import opened ReleaseDecisions
  import opened ReleasePreparation
  import opened ReleaseCreation
  import opened Authority
  import Identity
  import opened IdentityEpochs

  // ------------------------------------------------------------------ epochs over a run

  /** An identity mutation about the user in the organization takes effect at this event. */
  predicate Touches(s: Store, e: Event, user: Id, org: Id) {
    && e.request.MutateUser?
    && Identity.Concerns(e.request.m, user, org)
    && Identity.Judge(Identity.State(s.users, e.request.sessions, 0), e.request.m, e.at).Applied?
  }

  lemma {:induction false} UsersOfStep(s: Store, e: Event)
    ensures !e.request.MutateUser? ==> Step(s, e).users == s.users
  {
    hide Compact, Remember, Replay, Capable, Prepare, PublicationRefusal, TransitionRefusal, Advanced, FindCandidate,
         PublishedForm, Withdraw, NewCandidate, ReleaseFor, FindByDigest;
  }

  lemma {:induction false} StepUsers(s: Store, e: Event, user: Id, org: Id, authentication: nat, authorization: nat)
    requires UniqueRows(s.users)
    ensures UniqueRows(Step(s, e).users)
    ensures Reached(s.users, user, org, authentication, authorization) ==>
              && Reached(Step(s, e).users, user, org, authentication, authorization)
              && (Touches(s, e, user, org) || Outdated(s.users, user, org, authentication, authorization) ==>
                    Outdated(Step(s, e).users, user, org, authentication, authorization))
  {
    hide Identity.Judge, Identity.Mutated, Reached, Outdated, UniqueRows;
    if e.request.MutateUser? {
      var before := Identity.State(s.users, e.request.sessions, 0);
      MutationKeepsUniqueRows(before, e.request.m, e.at);
      if Reached(s.users, user, org, authentication, authorization) {
        MutationAdvances(before, e.request.m, e.at, user, org, authentication, authorization);
      }
    } else {
      UsersOfStep(s, e);
    }
  }

  lemma {:induction false} UsersStayUnique(s: Store, es: seq<Event>, i: nat)
    requires UniqueRows(s.users) && i <= |es|
    ensures UniqueRows(StateAt(s, es, i).users)
  {
    hide Step, UniqueRows;
    if i > 0 {
      UsersStayUnique(s, es, i - 1);
      StepUsers(StateAt(s, es, i - 1), es[i - 1], 0, 0, 0, 0);
    }
  }

  ghost predicate TouchedBetween(s: Store, es: seq<Event>, i: nat, j: nat, user: Id, org: Id)
    requires i <= j <= |es|
  {
    exists m :: i <= m < j && Touches(StateAt(s, es, m), es[m], user, org)
  }

  lemma {:induction false} EpochsOverRun(
      s: Store, es: seq<Event>, i: nat, j: nat, user: Id, org: Id, authentication: nat, authorization: nat)
    requires UniqueRows(s.users) && i <= j <= |es|
    requires Reached(StateAt(s, es, i).users, user, org, authentication, authorization)
    ensures Reached(StateAt(s, es, j).users, user, org, authentication, authorization)
    ensures TouchedBetween(s, es, i, j, user, org) ==>
              Outdated(StateAt(s, es, j).users, user, org, authentication, authorization)
    decreases j
  {
    hide Step, Touches, UniqueRows, Reached, Outdated;
    if i < j {
      EpochsOverRun(s, es, i, j - 1, user, org, authentication, authorization);
      UsersStayUnique(s, es, j - 1);
      StepUsers(StateAt(s, es, j - 1), es[j - 1], user, org, authentication, authorization);
      if TouchedBetween(s, es, i, j, user, org) && !TouchedBetween(s, es, i, j - 1, user, org) {
        assert Touches(StateAt(s, es, j - 1), es[j - 1], user, org);
      }
    }
  }

  // ------------------------------------------------------------------ where a candidate comes from

  const AUTHORS := {Identity.Owner, Identity.Admin, Identity.Publisher}
  const APPROVERS := {Identity.Owner, Identity.Admin}

  /**
   The event is the author's own create of the candidate: of the playlist as it is stored, for the
   schedule, screens and expiry asked for.
   */
  ghost predicate Creates(s: Store, e: Event, c: Candidate) {
    var r := e.request;
    && r.CreateCandidate? && Executes(s, e) && r.org == c.org && r.who.actor == c.author
    && ActsAs(s.users, c.org, c.author, AUTHORS)
    && r.data.playlist == c.sourcePlaylist && r.data.expiresAt == c.expiresAt && e.at == c.createdAt < c.expiresAt
    && InOrder(c.schedule, r.data.schedule) && ListedInOrder(c.screens, r.data.screens)
    && exists p ::
         && StoredPlaylist(s.playlists, c.org, c.sourcePlaylist, p) && FrozenAs(p.items, s.media, c.org, c.items)
         && c.releaseDigest == OfRelease(ReleaseSnapshot(p.id, p.updatedAt, p.name, p.description, c.items))
  }

  /** The event submits the candidate, on behalf of its author and under its digest. */
  ghost predicate Submits(s: Store, e: Event, c: Candidate) {
    var r := e.request;
    && r.SubmitCandidate? && Executes(s, e) && r.org == c.org && r.id == c.id && r.expected == c.digest
    && r.who.actor == c.author && ActsAs(s.users, c.org, c.author, AUTHORS)
    && c.submittedAt == Some(e.at) && e.at < c.expiresAt
  }

  /**
   The event approves the candidate, on behalf of its approver, under its digest and the approver's
   epochs of then.
   */
  ghost predicate Approves(s: Store, e: Event, c: Candidate) {
    var r := e.request;
    && r.ApproveCandidate? && Executes(s, e) && r.org == c.org && r.id == c.id && r.expected == c.digest
    && r.who.actor != c.author
    && c.approval.Some? && c.approval.value.approver == r.who.actor && c.approval.value.digest == c.digest
    && StillApproves(s.users, c.org, c.approval.value)
    && c.approvedAt == Some(e.at) && e.at < c.expiresAt
  }

  /** The event publishes the candidate under its digest, while its approver is still the one who approved it. */
  ghost predicate Publishes(s: Store, e: Event, c: Candidate) {
    var r := e.request;
    && r.PublishCandidate? && Executes(s, e) && r.org == c.org && r.id == c.id && r.expected == c.digest
    && ActsAs(s.users, c.org, r.who.actor, AUTHORS)
    && c.approval.Some? && StillApproves(s.users, c.org, c.approval.value)
    && c.publishedAt == Some(e.at) && e.at < c.expiresAt
  }

  ghost predicate CreatedBy(s: Store, es: seq<Event>, i: nat, c: Candidate)
    requires i < |es|
  {
    Creates(StateAt(s, es, i), es[i], c)
  }

  ghost predicate SubmittedBy(s: Store, es: seq<Event>, i: nat, c: Candidate)
    requires i < |es|
  {
    Submits(StateAt(s, es, i), es[i], c)
  }

  ghost predicate ApprovedBy(s: Store, es: seq<Event>, i: nat, c: Candidate)
    requires i < |es|
  {
    Approves(StateAt(s, es, i), es[i], c)
  }

  ghost predicate PutOnAirBy(s: Store, es: seq<Event>, i: nat, c: Candidate)
    requires i < |es|
  {
    Publishes(StateAt(s, es, i), es[i], c)
  }

  /** The events that brought the candidate to its stage, in order, before event `n`. */
  ghost predicate Provenance(s: Store, es: seq<Event>, n: nat, c: Candidate)
    requires n <= |es|
  {
    match c.stage
    case Draft => exists h :: 0 <= h < n && CreatedBy(s, es, h, c)
    case InReview => exists h, i :: 0 <= h < i < n && CreatedBy(s, es, h, c) && SubmittedBy(s, es, i, c)
    case Approved =>
      exists h, i, j ::
        0 <= h < i < j < n && CreatedBy(s, es, h, c) && SubmittedBy(s, es, i, c) && ApprovedBy(s, es, j, c)
    case Published =>
      exists h, i, j, k ::
        0 <= h < i < j < k < n && CreatedBy(s, es, h, c) && SubmittedBy(s, es, i, c) && ApprovedBy(s, es, j, c)
        && PutOnAirBy(s, es, k, c)
  }

  /** The event takes the candidate from one stage to the next. */
  ghost predicate Takes(s: Store, e: Event, before: Candidate, c: Candidate) {
    || (StepsTo(before, Submit, c) && Submits(s, e, c))
    || (StepsTo(before, Approve, c) && Approves(s, e, c))
    || (StepsTo(before, Publish, c) && Publishes(s, e, c))
  }

  /** A candidate after an event was there before it, was created by it, or took its next step by it. */
  lemma {:induction false} CandidateComesFrom(s: Store, e: Event, c: Candidate) returns (before: Candidate)
    requires Inv(s, e.at) && c in Step(s, e).candidates
    ensures c in s.candidates || (c.stage.Draft? && Creates(s, e, c))
            || (before in s.candidates && Takes(s, e, before, c))
  {
    hide Inv, Creates, Takes, Created, Transitioned, PublishedBy, WithdrawnStore, Mutated;
    before := c;
    match e.request
    case CreateCandidate(org, who, data, policy) => CreatedCandidates(s, e, c);
    case SubmitCandidate(org, who, id, expected) => before := SubmittedCandidate(s, e, c);
    case ApproveCandidate(org, who, id, expected) => before := ApprovedCandidate(s, e, c);
    case PublishCandidate(org, who, id, expected, policy) => before := PublishedCandidate(s, e, c);
    case WithdrawSchedule(org, schedule, actor) => WithdrawnCandidates(s, org, schedule, actor, e.at);
    case MutateUser(_, _) =>
    case EditCatalog(_, _, _) =>
  }

  lemma {:induction false} WithdrawnCandidates(s: Store, org: Id, schedule: Id, actor: Id, now: int)
    ensures WithdrawnStore(s, org, schedule, actor, now).candidates == s.candidates
  {
    hide Withdraw;
  }

  /** A create adds at most the candidate it answers with. */
  lemma {:induction false} CreateAdds(
      s: Store, org: Id, data: CandidateInput, who: Caller, policy: Policy, now: int, c: Candidate)
    requires c in Created(s, org, data, who, policy, now).0.candidates
    ensures c in s.candidates || Created(s, org, data, who, policy, now).1 == Completed(c, false)
  {
    hide Compact, Remember, Replay, Capable, Prepare, ReleaseFor, FindByDigest, Garbage, NewCandidate;
  }

  lemma {:induction false} CreatedCandidates(s: Store, e: Event, c: Candidate)
    requires Inv(s, e.at) && e.request.CreateCandidate? && c in Step(s, e).candidates
    ensures c in s.candidates || (c.stage.Draft? && Creates(s, e, c))
  {
    hide Inv, Created, KeyUsed, AnsweredFromRecord, ActsAs, CollectedFrom, Recorded, Reusable, Pending, Unpublished,
         Members, StoredPlaylist, StoredInOrder, Freezable, FrozenAs, Unplayable, Incomplete, AllStored, ListedInOrder,
         InOrder;
    var r := e.request;
    CreateAdds(s, r.org, r.data, r.who, r.policy, e.at, c);
    CreateDecides(s, r.org, r.data, r.who, r.policy, e.at);
    if c !in s.candidates {
      var (t, answer) := Created(s, r.org, r.data, r.who, r.policy, e.at);
      AnswerIsFresh(s, t, c, r.org, Create, r.who, e.at);
      var collected, prepared :| CollectedFrom(s, collected, r.org, e.at)
        && Checked(collected, r.org, r.data, r.policy, e.at, prepared)
        && match prepared
           case NotReady(reason) => t == collected && answer == Refused(reason)
           case Ready(snapshot, _) =>
             answer.Completed? && !answer.replayed
             && CreatedWith(collected, t, answer.candidate, r.org, r.data, r.who, snapshot, e.at);
      CollectionKeepsCatalog(s, collected, r.org, e.at);
    }
  }

  lemma {:induction false} AnswerIsFresh(
      s: Store, t: Store, c: Candidate, org: Id, op: Operation, who: Caller, now: int)
    ensures !AnsweredFromRecord(s, t, Completed(c, false), org, op, who, now)
  {
  }

  lemma {:induction false} CollectionKeepsCatalog(s: Store, t: Store, org: Id, now: int)
    requires CollectedFrom(s, t, org, now)
    ensures t.users == s.users && t.playlists == s.playlists && t.media == s.media
  {
  }

  /** In a sequence with one element replaced every other element is an old one. */
  lemma {:induction false} OldOrReplaced(cs: seq<Candidate>, k: nat, d: Candidate, c: Candidate)
    requires k < |cs| && c in cs[k := d]
    ensures c == d || c in cs
  {
  }

  lemma {:induction false} SubmittedCandidate(s: Store, e: Event, c: Candidate) returns (before: Candidate)
    requires Inv(s, e.at) && e.request.SubmitCandidate? && c in Step(s, e).candidates
    ensures c in s.candidates || (before in s.candidates && Takes(s, e, before, c))
  {
    hide Inv, Transitioned, KeyUsed, ActsAs, Recorded, AnsweredFromRecord;
    var r := e.request;
    var (t, answer) := Transitioned(s, r.org, Submit, r.id, r.expected, r.who, e.at);
    SubmitDecides(s, r.org, r.id, r.expected, r.who, e.at);
    before := c;
    if c !in s.candidates {
      RecordChangesNothing(s, t, answer, r.org, Submit, r.who, e.at);
      var k: nat :| StoredAt(s.candidates, k, r.org, r.id) && SubmittedAt(s, t, answer, k, r.expected, r.who, e.at);
      before := s.candidates[k];
      OldOrReplaced(s.candidates, k, before.(stage := InReview, submittedAt := Some(e.at)), c);
    }
  }

  lemma {:induction false} RecordChangesNothing(
      s: Store, t: Store, r: Result, org: Id, op: Operation, who: Caller, now: int)
    ensures AnsweredFromRecord(s, t, r, org, op, who, now) ==> t == s
  {
  }

  lemma {:induction false} ApprovedCandidate(s: Store, e: Event, c: Candidate) returns (before: Candidate)
    requires Inv(s, e.at) && e.request.ApproveCandidate? && c in Step(s, e).candidates
    ensures c in s.candidates || (before in s.candidates && Takes(s, e, before, c))
  {
    hide Inv, Transitioned, KeyUsed, ActiveRow, Recorded, AnsweredFromRecord;
    var r := e.request;
    var (t, answer) := Transitioned(s, r.org, Approve, r.id, r.expected, r.who, e.at);
    ApproveDecides(s, r.org, r.id, r.expected, r.who, e.at);
    before := c;
    if c !in s.candidates {
      RecordChangesNothing(s, t, answer, r.org, Approve, r.who, e.at);
      var k: nat, u :| StoredAt(s.candidates, k, r.org, r.id) && ActiveRow(s.users, r.org, r.who.actor, u)
                       && ApprovedAt(s, t, answer, k, r.expected, r.who, u, e.at);
      before := s.candidates[k];
      OneActiveRow(s.users, r.org, r.who.actor, u);
      OldOrReplaced(s.candidates, k, answer.candidate, c);
    }
  }

  lemma {:induction false} OneActiveRow(users: seq<Identity.User>, org: Id, user: Id, u: Identity.User)
    requires ActiveRow(users, org, user, u)
    ensures forall v :: ActiveRow(users, org, user, v) ==> v == u
  {
  }

  lemma {:induction false} PublishedCandidate(s: Store, e: Event, c: Candidate) returns (before: Candidate)
    requires Inv(s, e.at) && e.request.PublishCandidate? && c in Step(s, e).candidates
    ensures c in s.candidates || (before in s.candidates && Takes(s, e, before, c))
  {
    hide Inv, PublishedBy, KeyUsed, ActsAs, StillApproves, Recorded, AnsweredFromRecord, CoversAssignment,
         AssetsOfItems, AllStored;
    var r := e.request;
    var (t, answer) := PublishedBy(s, r.org, r.id, r.expected, r.who, r.policy, e.at);
    PublishDecides(s, r.org, r.id, r.expected, r.who, r.policy, e.at);
    before := c;
    if c !in s.candidates {
      RecordChangesNothing(s, t, answer, r.org, Publish, r.who, e.at);
      var k: nat :| StoredAt(s.candidates, k, r.org, r.id)
                    && BarredOrPublished(s, t, answer, k, r.expected, r.who, r.policy, e.at);
      before := s.candidates[k];
      OldOrReplaced(s.candidates, k, answer.candidate, c);
    }
  }

  lemma {:induction false} CandidatesHaveProvenance(s: Store, from: int, es: seq<Event>, n: nat, c: Candidate)
    requires Inv(s, from) && Fresh(s) && Clocked(from, es) && n <= |es|
    requires c in StateAt(s, es, n).candidates
    ensures Provenance(s, es, n, c)
    decreases n
  {
    hide Inv, Step, Creates, Takes, Fresh, Provenance;
    if n > 0 {
      var t, e := StateAt(s, es, n - 1), es[n - 1];
      ReachableIsSound(s, from, es, n - 1);
      var before := CandidateComesFrom(t, e, c);
      if c in t.candidates {
        CandidatesHaveProvenance(s, from, es, n - 1, c);
        ProvenanceCarries(s, es, n, c);
      } else if Takes(t, e, before, c) && before in t.candidates {
        CandidatesHaveProvenance(s, from, es, n - 1, before);
        ProvenanceStep(s, es, n, before, c);
      } else {
        ProvenanceOpens(s, es, n, c);
      }
    } else {
      NoneAtFirst(s);
    }
  }

  lemma {:induction false} NoneAtFirst(s: Store)
    requires Fresh(s)
    ensures s.candidates == []
  {
  }

  lemma {:induction false} ProvenanceOpens(s: Store, es: seq<Event>, n: nat, c: Candidate)
    requires 0 < n <= |es| && c.stage.Draft? && Creates(StateAt(s, es, n - 1), es[n - 1], c)
    ensures Provenance(s, es, n, c)
  {
    hide Creates;
    assert CreatedBy(s, es, n - 1, c);
  }

  lemma {:induction false} ProvenanceCarries(s: Store, es: seq<Event>, n: nat, c: Candidate)
    requires 0 < n <= |es| && Provenance(s, es, n - 1, c)
    ensures Provenance(s, es, n, c)
  {
    hide CreatedBy, SubmittedBy, ApprovedBy, PutOnAirBy;
  }

  /** What an earlier event did to a candidate it still did after the candidate's next step. */
  lemma {:induction false} OriginsCarry(t: Store, d: Event, op: Operation, before: Candidate, c: Candidate)
    requires StepsTo(before, op, c)
    ensures Creates(t, d, before) ==> Creates(t, d, c)
    ensures !op.Submit? && Submits(t, d, before) ==> Submits(t, d, c)
    ensures op.Publish? && Approves(t, d, before) ==> Approves(t, d, c)
  {
    hide Executes, ActsAs, StillApproves, InOrder, ListedInOrder, StoredPlaylist, FrozenAs;
  }

  lemma {:induction false} ProvenanceStep(s: Store, es: seq<Event>, n: nat, before: Candidate, c: Candidate)
    requires 0 < n <= |es| && Provenance(s, es, n - 1, before)
    requires Takes(StateAt(s, es, n - 1), es[n - 1], before, c)
    ensures Provenance(s, es, n, c)
  {
    hide Creates, Submits, Approves, Publishes, StateAt;
    if StepsTo(before, Submit, c) {
      var h :| 0 <= h < n - 1 && CreatedBy(s, es, h, before);
      OriginsCarry(StateAt(s, es, h), es[h], Submit, before, c);
      assert CreatedBy(s, es, h, c) && SubmittedBy(s, es, n - 1, c);
    } else if StepsTo(before, Approve, c) {
      var h, i :| 0 <= h < i < n - 1 && CreatedBy(s, es, h, before) && SubmittedBy(s, es, i, before);
      OriginsCarry(StateAt(s, es, h), es[h], Approve, before, c);
      OriginsCarry(StateAt(s, es, i), es[i], Approve, before, c);
      assert CreatedBy(s, es, h, c) && SubmittedBy(s, es, i, c) && ApprovedBy(s, es, n - 1, c);
    } else {
      var h, i, j :| 0 <= h < i < j < n - 1 && CreatedBy(s, es, h, before) && SubmittedBy(s, es, i, before)
                     && ApprovedBy(s, es, j, before);
      OriginsCarry(StateAt(s, es, h), es[h], Publish, before, c);
      OriginsCarry(StateAt(s, es, i), es[i], Publish, before, c);
      OriginsCarry(StateAt(s, es, j), es[j], Publish, before, c);
      assert CreatedBy(s, es, h, c) && SubmittedBy(s, es, i, c) && ApprovedBy(s, es, j, c)
             && PutOnAirBy(s, es, n - 1, c);
    }
  }

  // ------------------------------------------------------------------ freshness

  /**
   Every published candidate was created by its author from the playlist as it was stored, then
   submitted by its author, then approved by somebody else under exactly its digest, then published;
   and between the approval and the publication no password rotation, disablement, role change or
   removal touched the approver.
   */
  lemma {:induction false} PublicationIsFresh(s: Store, from: int, es: seq<Event>, n: nat, c: Candidate)
    returns (h: nat, i: nat, j: nat, k: nat)
    requires Inv(s, from) && Fresh(s) && UniqueRows(s.users) && Clocked(from, es) && n <= |es|
    requires c in StateAt(s, es, n).candidates && c.stage.Published?
    ensures h < i < j < k < n
    ensures CreatedBy(s, es, h, c) && SubmittedBy(s, es, i, c) && ApprovedBy(s, es, j, c) && PutOnAirBy(s, es, k, c)
    ensures !TouchedBetween(s, es, j, k, c.approval.value.approver, c.org)
  {
    hide Inv, StateAt, Fresh, UniqueRows, Current, Outdated, Reached, Executes, StillApproves, Creates, Submits;
    CandidatesHaveProvenance(s, from, es, n, c);
    h, i, j, k :| 0 <= h < i < j < k < n && CreatedBy(s, es, h, c) && SubmittedBy(s, es, i, c)
                  && ApprovedBy(s, es, j, c) && PutOnAirBy(s, es, k, c);
    var a := c.approval.value;
    UsersStayUnique(s, es, j);
    ApprovingIsCurrent(StateAt(s, es, j).users, c.org, a);
    ApprovingIsCurrent(StateAt(s, es, k).users, c.org, a);
    CurrentIsReached(StateAt(s, es, j).users, a.approver, c.org, a.authentication, a.authorization);
    EpochsOverRun(s, es, j, k, a.approver, c.org, a.authentication, a.authorization);
    if TouchedBetween(s, es, j, k, a.approver, c.org) {
      OutdatedIsNotCurrent(StateAt(s, es, k).users, a.approver, c.org, a.authentication, a.authorization);
    }
  }

  lemma {:induction false} ApprovingIsCurrent(users: seq<Identity.User>, org: Id, a: Approval)
    requires StillApproves(users, org, a)
    ensures Current(users, a.approver, org, a.authentication, a.authorization)
  {
    var u :| ActiveRow(users, org, a.approver, u) && u.role in APPROVERS
             && u.authenticationEpoch == a.authentication && u.authorizationEpoch == a.authorization;
    assert u in users;
  }

  lemma {:induction false} CurrentIsReached(
      users: seq<Identity.User>, user: Id, org: Id, authentication: nat, authorization: nat)
    requires UniqueRows(users) && Current(users, user, org, authentication, authorization)
    ensures Reached(users, user, org, authentication, authorization)
  {
    var u :| u in users && Identity.IsRow(u, user, org) && u.authenticationEpoch == authentication
             && u.authorizationEpoch == authorization;
    var j :| 0 <= j < |users| && users[j] == u;
    forall v | v in users && Identity.IsRow(v, user, org) ensures v == u {
      var i :| 0 <= i < |users| && users[i] == v;
    }
  }
}
