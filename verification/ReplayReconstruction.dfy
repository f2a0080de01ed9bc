/**
 The database form of a replay (apps/api/src/store/prisma.ts): the stored response is compared with
 the live candidate after the fields of later stages have been deleted from it.
 */
module ReplayReconstruction {
  import opened Common
  import opened Canonical
  import opened Releases
  import opened ReleaseInvariants
  import opened ReleaseRuns

  /** The live candidate confirms the stored response of the operation. */
  predicate Confirms(s: Store, org: Id, op: Operation, response: Candidate) {
    var k := FindCandidate(s.candidates, org, response.id);
    && response.org == org && response.stage == ExpectedStage(op) && k.Some?
    && var live := s.candidates[k.value];
       && Rank(live.stage) >= Rank(ExpectedStage(op))
       && (!op.Create? ==> live.submittedAt.Some?)
       && (op.Approve? || op.Publish? ==> live.approvedAt.Some?)
       && Erase(op, live) == response
       && ReferencesValid(org, op, response, live)
       && var release := FindRelease(s.releases, org, live.release);
          release.Some? && ValidReleaseDigest(release.value)
  }

  method VerifiedReleaseCandidateReplay(s: Store, org: Id, op: Operation, response: Candidate)
    returns (r: Option<Candidate>)
    ensures r == if Confirms(s, org, op, response) then Some(response) else None
  {
    if response.org != org || response.stage != ExpectedStage(op) {
      return None;
    }
    var k := FindCandidate(s.candidates, org, response.id);
    if k.None? {
      return None;
    }
    var live := s.candidates[k.value];
    if Rank(live.stage) < Rank(ExpectedStage(op))
       || (!op.Create? && live.submittedAt.None?)
       || ((op.Approve? || op.Publish?) && live.approvedAt.None?)
    {
      return None;
    }
    var operationResponse := live;
    if op.Create? {
      operationResponse := operationResponse.(stage := Draft);
      operationResponse := operationResponse.(submittedAt := None);
      operationResponse := operationResponse.(approvedAt := None);
      operationResponse := operationResponse.(publishedAt := None);
      operationResponse := operationResponse.(scheduleId := None);
      operationResponse := operationResponse.(assignmentId := None);
      operationResponse := operationResponse.(approval := None);
    } else if op.Submit? {
      operationResponse := operationResponse.(stage := InReview);
      operationResponse := operationResponse.(approvedAt := None);
      operationResponse := operationResponse.(publishedAt := None);
      operationResponse := operationResponse.(scheduleId := None);
      operationResponse := operationResponse.(assignmentId := None);
      operationResponse := operationResponse.(approval := None);
    } else if op.Approve? {
      operationResponse := operationResponse.(stage := Approved);
      operationResponse := operationResponse.(publishedAt := None);
      operationResponse := operationResponse.(scheduleId := None);
      operationResponse := operationResponse.(assignmentId := None);
    }
    var release := FindRelease(s.releases, org, live.release);
    if live.digest != response.digest
       || response != operationResponse
       || !ValidCandidateDigest(live)
       || release.None? || !ValidReleaseDigest(release.value)
       || ((op.Approve? || op.Publish?) && (live.approval.None? || live.approval.value.digest != live.digest))
       || (op.Publish? && (live.scheduleId.None? || live.assignmentId.None? || !live.stage.Published?))
    {
      return None;
    }
    return Some(operationResponse);
  }

  /** The stored candidate has got that far and, with the later fields erased, is the response. */
  ghost predicate LooksBack(s: Store, org: Id, op: Operation, response: Candidate, live: Candidate) {
    && live in s.candidates && live.org == org && live.id == response.id
    && Rank(live.stage) >= Rank(ExpectedStage(op)) && Erase(op, live) == response
  }

  /** In a sound store a response is confirmed exactly when a stored candidate looks back on it. */
  lemma {:induction false} ConfirmedExactly(s: Store, now: int, org: Id, op: Operation, response: Candidate)
    requires Inv(s, now)
    ensures Confirms(s, org, op, response) <==> exists live :: LooksBack(s, org, op, response, live)
  {
    hide Inv, Confirms, LooksBack;
    if Confirms(s, org, op, response) { ConfirmedLooksBack(s, org, op, response); }
    forall live | LooksBack(s, org, op, response, live) ensures Confirms(s, org, op, response) {
      LookingBackConfirms(s, now, org, op, response, live);
    }
  }

  lemma {:induction false} ConfirmedLooksBack(s: Store, org: Id, op: Operation, response: Candidate)
    requires Confirms(s, org, op, response)
    ensures exists live :: LooksBack(s, org, op, response, live)
  {
    hide Erase, ReferencesValid, FindRelease;
    var live := s.candidates[FindCandidate(s.candidates, org, response.id).value];
    assert LooksBack(s, org, op, response, live);
  }

  lemma {:induction false} LookingBackConfirms(
      s: Store, now: int, org: Id, op: Operation, response: Candidate, live: Candidate)
    requires Inv(s, now) && LooksBack(s, org, op, response, live)
    ensures Confirms(s, org, op, response)
  {
    hide AssignmentsSound, SchedulesSound, RecordsSound, FindCandidate, FindRelease, ValidCandidateDigest;
    var k :| 0 <= k < |s.candidates| && s.candidates[k] == live;
    FindCandidateFinds(s.candidates, k);
    assert CandidateSound(live);
    var release :| release in s.releases && release.org == live.org && release.id == live.release
                   && release.digest == live.releaseDigest;
    FindReleaseFinds(s.releases, s.nextId, release);
  }

  /** In a sound store the live candidate confirms the response of every record that has not expired. */
  lemma {:induction false} LiveRecordsAreConfirmed(s: Store, now: int, k: nat)
    requires Inv(s, now) && k < |s.records| && now < s.records[k].expiresAt
    ensures var r := s.records[k]; r.response.Some? && Confirms(s, r.org, r.operation, r.response.value)
  {
    hide ReferencesValid, FindCandidate, ValidCandidateDigest, AssignmentsSound, SchedulesSound, RecordsSound,
         HasSupport;
    var r := s.records[k];
    ReferencesAreValid(s, now, k);
    var i := FindCandidate(s.candidates, r.org, r.response.value.id).value;
    SoundAt(s.candidates, s.releases, s.nextId, i);
    var live := s.candidates[i];
    var release :| release in s.releases && release.org == live.org && release.id == live.release
                   && release.digest == live.releaseDigest;
    FindReleaseFinds(s.releases, s.nextId, release);
  }

  /**
   Whatever transitions follow a call that took effect, until thirty days later the deep comparison
   with the reconstruction succeeds on its response.
   */
  lemma {:induction false} ResponsesCanBeReconstructed(s: Store, from: int, es: seq<Event>, i: nat, j: nat)
    requires Inv(s, from) && Clocked(from, es) && i < j < |es|
    requires IsCall(es[i]) && Executes(StateAt(s, es, i), es[i]) && es[j].at < es[i].at + RETENTION
    ensures Confirms(StateAt(s, es, j), es[i].request.org, OperationOf(es[i]),
                     Answer(StateAt(s, es, i), es[i]).value.candidate)
  {
    hide Inv, StateAt, Confirms, Answer;
    var k := RecordedFrom(s, es, i, j);
    ReachableIsSound(s, from, es, j);
    LiveRecordsAreConfirmed(StateAt(s, es, j), es[j].at, k);
  }
}
