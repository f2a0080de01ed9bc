/**
 Whole runs of the release workflow, interleaved with identity mutations and catalog edits, on a
 clock that never goes back.
 */
module ReleaseRuns {
  import opened Common
  import opened Canonical
  import opened Releases
  import opened ReleaseInvariants
  import Identity

  datatype Request =
    | CreateCandidate(org: Id, who: Caller, data: CandidateInput, policy: Policy)
    | SubmitCandidate(org: Id, who: Caller, id: Id, expected: Digest)
    | ApproveCandidate(org: Id, who: Caller, id: Id, expected: Digest)
    | PublishCandidate(org: Id, who: Caller, id: Id, expected: Digest, policy: Policy)
    | WithdrawSchedule(org: Id, schedule: Id, actor: Id)
    | MutateUser(m: Identity.Mutation, sessions: seq<Identity.Session>)
    | EditCatalog(playlists: seq<Playlist>, media: seq<MediaRecord>, screens: seq<Screen>)

  datatype Event = Event(at: int, request: Request)

  function Mutated(
      users: seq<Identity.User>, sessions: seq<Identity.Session>, m: Identity.Mutation, now: int): seq<Identity.User>
  {
    Identity.Mutated(Identity.State(users, sessions, 0), m, now).users
  }

  /** What the store is after the event, and, for a request on a candidate, what it answers. */
  function Handle(s: Store, e: Event): (Store, Option<Result>) {
    match e.request
    case CreateCandidate(org, who, data, policy) => var (t, r) := Created(s, org, data, who, policy, e.at); (t, Some(r))
    case SubmitCandidate(org, who, id, expected) =>
      var (t, r) := Transitioned(s, org, Submit, id, expected, who, e.at); (t, Some(r))
    case ApproveCandidate(org, who, id, expected) =>
      var (t, r) := Transitioned(s, org, Approve, id, expected, who, e.at); (t, Some(r))
    case PublishCandidate(org, who, id, expected, policy) =>
      var (t, r) := PublishedBy(s, org, id, expected, who, policy, e.at); (t, Some(r))
    case WithdrawSchedule(org, schedule, actor) => (WithdrawnStore(s, org, schedule, actor, e.at), None)
    case MutateUser(m, sessions) => (s.(users := Mutated(s.users, sessions, m, e.at)), None)
    case EditCatalog(playlists, media, screens) =>
      (s.(playlists := playlists, media := media, screens := screens), None)
  }

  function Step(s: Store, e: Event): Store { Handle(s, e).0 }

  function Answer(s: Store, e: Event): Option<Result> { Handle(s, e).1 }

  predicate IsCall(e: Event) {
    !e.request.WithdrawSchedule? && !e.request.MutateUser? && !e.request.EditCatalog?
  }

  function OperationOf(e: Event): Operation
    requires IsCall(e)
  {
    match e.request
    case CreateCandidate(_, _, _, _) => Create
    case SubmitCandidate(_, _, _, _) => Submit
    case ApproveCandidate(_, _, _, _) => Approve
    case PublishCandidate(_, _, _, _, _) => Publish
  }

  /** The call takes effect, as opposed to being refused or replayed. */
  predicate Executes(s: Store, e: Event) {
    Answer(s, e).Some? && Answer(s, e).value.Completed? && !Answer(s, e).value.replayed
  }

  /** Two calls under one idempotency key. */
  predicate SameKey(d: Event, e: Event) {
    && IsCall(d) && IsCall(e) && d.request.org == e.request.org
    && OperationOf(d) == OperationOf(e) && d.request.who.keyHash == e.request.who.keyHash
  }

  /** The store after the first `i` events. */
  function StateAt(s: Store, es: seq<Event>, i: nat): Store
    requires i <= |es|
  {
    if i == 0 then s else Step(StateAt(s, es, i - 1), es[i - 1])
  }

  ghost predicate Clocked(from: int, es: seq<Event>) {
    && (forall i | 0 <= i < |es| :: from <= es[i].at)
    && (forall i, j | 0 <= i < j < |es| :: es[i].at <= es[j].at)
  }

  function ClockAt(from: int, es: seq<Event>, i: nat): int
    requires i <= |es|
  {
    if i == 0 then from else es[i - 1].at
  }

  // ------------------------------------------------------------------ soundness of every reachable store

  predicate Fresh(s: Store) {
    s.schedules == [] && s.releases == [] && s.assignments == [] && s.candidates == [] && s.records == []
  }

  lemma {:induction false} FreshIsSound(s: Store, now: int)
    requires Fresh(s)
    ensures Inv(s, now)
  {
  }

  lemma {:induction false} StepKeepsInv(s: Store, e: Event)
    requires Inv(s, e.at)
    ensures Inv(Step(s, e), e.at)
  {
    hide Inv, Created, Transitioned, PublishedBy, WithdrawnStore, Mutated;
    match e.request
    case CreateCandidate(org, who, data, policy) => CreateKeepsInv(s, org, data, who, policy, e.at);
    case SubmitCandidate(org, who, id, expected) => TransitionKeepsInv(s, org, Submit, id, expected, who, e.at);
    case ApproveCandidate(org, who, id, expected) => TransitionKeepsInv(s, org, Approve, id, expected, who, e.at);
    case PublishCandidate(org, who, id, expected, policy) => PublishKeepsInv(s, org, id, expected, who, policy, e.at);
    case WithdrawSchedule(org, schedule, actor) => WithdrawKeepsInv(s, org, schedule, actor, e.at);
    case MutateUser(m, sessions) => OthersKeepInv(s, Step(s, e), e.at);
    case EditCatalog(playlists, media, screens) => OthersKeepInv(s, Step(s, e), e.at);
  }

  lemma {:induction false} OthersKeepInv(s: Store, t: Store, now: int)
    requires Inv(s, now) && t == s.(users := t.users, playlists := t.playlists, media := t.media, screens := t.screens)
    ensures Inv(t, now)
  {
  }

  lemma {:induction false} ReachableIsSound(s: Store, from: int, es: seq<Event>, i: nat)
    requires Inv(s, from) && Clocked(from, es) && i <= |es|
    ensures Inv(StateAt(s, es, i), ClockAt(from, es, i))
    ensures i < |es| ==> Inv(StateAt(s, es, i), es[i].at)
  {
    hide Inv, Step;
    if i > 0 {
      ReachableIsSound(s, from, es, i - 1);
      StepKeepsInv(StateAt(s, es, i - 1), es[i - 1]);
    }
    if i < |es| { TimePasses(StateAt(s, es, i), ClockAt(from, es, i), es[i].at); }
  }

  /** No call of any run reaches the "references are invalid" error. */
  lemma {:induction false} NothingIsThrown(s: Store, from: int, es: seq<Event>, i: nat)
    requires Inv(s, from) && Clocked(from, es) && i < |es|
    ensures Answer(StateAt(s, es, i), es[i]) != Some(Thrown)
  {
    hide Inv, Replay, Capable, Collected, Prepare, Commit, PublicationRefusal, TransitionRefusal, Advanced,
         PublishedStore, FindCandidate, StateAt;
    var t, e := StateAt(s, es, i), es[i];
    ReachableIsSound(s, from, es, i);
    if IsCall(e) {
      ReplayNeverThrows(t, e.request.org, OperationOf(e), e.request.who, e.at);
    }
  }

  // ------------------------------------------------------------------ exactly once

  /** The same record, except that its response may have been dropped. */
  predicate SameRecord(r: Record, t: Record) {
    t == r.(response := t.response) && (t.response == r.response || t.response.None?)
  }

  predicate RecordsContinue(rs: seq<Record>, ts: seq<Record>) {
    |rs| <= |ts| && forall k | 0 <= k < |rs| :: SameRecord(rs[k], ts[k])
  }

  function RecordOf(e: Event, c: Candidate): Record
    requires IsCall(e)
  {
    var who := e.request.who;
    Record(e.request.org, OperationOf(e), who.keyHash, who.actor, who.request, e.at + RETENTION, Some(c))
  }

  lemma {:induction false} RememberedRecords(
      rs: seq<Record>, org: Id, op: Operation, who: Caller, c: Candidate, now: int)
    ensures var ts := Compact(Remember(rs, org, op, who, c, now), now);
            && RecordsContinue(rs, ts) && |ts| == |rs| + 1
            && ts[|rs|] == Record(org, op, who.keyHash, who.actor, who.request, now + RETENTION, Some(c))
  {
    hide Compact;
    var after := Remember(rs, org, op, who, c, now);
    if Due(after, now, |rs|) { DueIsExpired(after, now, |rs|); }
  }

  lemma {:induction false} ReplaySaysSo(s: Store, org: Id, op: Operation, who: Caller, now: int)
    ensures var r := Replay(s, org, op, who, now); r.Some? && r.value.Completed? ==> r.value.replayed
  {
  }

  /** A call that takes effect adds its record; every other event leaves the records as they are. */
  lemma {:induction false} StepRecords(s: Store, e: Event)
    ensures var ts := Step(s, e).records;
            && RecordsContinue(s.records, ts)
            && (Executes(s, e) ==>
                  && IsCall(e) && |ts| == |s.records| + 1
                  && ts[|s.records|] == RecordOf(e, Answer(s, e).value.candidate))
  {
    hide Compact, Remember, Replay, Capable, Prepare, PublicationRefusal, TransitionRefusal, Advanced, FindCandidate,
         PublishedForm;
    match e.request
    case CreateCandidate(org, who, data, policy) =>
      CollectedFrame(s, org, e.at);
      CreateRecords(s, e);
    case SubmitCandidate(org, who, id, expected) => TransitionRecords(s, org, Submit, id, expected, who, e.at);
    case ApproveCandidate(org, who, id, expected) => TransitionRecords(s, org, Approve, id, expected, who, e.at);
    case PublishCandidate(org, who, id, expected, policy) =>
      var k := FindCandidate(s.candidates, org, id);
      ReplaySaysSo(s, org, Publish, who, e.at);
      if k.Some? {
        RememberedRecords(s.records, org, Publish, who, PublishedForm(s, s.candidates[k.value], e.at), e.at);
      }
    case WithdrawSchedule(_, _, _) =>
    case MutateUser(_, _) =>
    case EditCatalog(_, _, _) =>
  }

  lemma {:induction false} CreateRecords(s: Store, e: Event)
    requires e.request.CreateCandidate?
    ensures var ts := Step(s, e).records;
            && RecordsContinue(s.records, ts)
            && (Executes(s, e) ==>
                  && |ts| == |s.records| + 1
                  && ts[|s.records|] == RecordOf(e, Answer(s, e).value.candidate))
  {
    hide Compact, Remember, Replay, Capable, Prepare, Collected, NewCandidate, ReleaseFor, FindByDigest;
    var r := e.request;
    ReplaySaysSo(s, r.org, Create, r.who, e.at);
    CollectedFrame(s, r.org, e.at);
    var t := Collected(s, r.org, e.at);
    var p := Prepare(t, r.org, r.data, r.policy, e.at);
    if p.Ready? {
      var c := Commit(t, r.org, r.data, r.who, p.snapshot, p.screens, e.at).1;
      RememberedRecords(s.records, r.org, Create, r.who, c, e.at);
    }
  }

  lemma {:induction false} TransitionRecords(
      s: Store, org: Id, op: Operation, id: Id, expected: Digest, who: Caller, now: int)
    requires op.Submit? || op.Approve?
    ensures var (t, r) := Transitioned(s, org, op, id, expected, who, now);
            && RecordsContinue(s.records, t.records)
            && (r.Completed? && !r.replayed ==>
                  && |t.records| == |s.records| + 1
                  && t.records[|s.records|]
                     == Record(org, op, who.keyHash, who.actor, who.request, now + RETENTION, Some(r.candidate)))
  {
    hide Compact, Remember, Replay, TransitionRefusal, Advanced, FindCandidate;
    var (t, r) := Transitioned(s, org, op, id, expected, who, now);
    ReplaySaysSo(s, org, op, who, now);
    if r.Completed? && !r.replayed { RememberedRecords(s.records, org, op, who, r.candidate, now); }
  }

  lemma {:induction false} RecordsStay(s: Store, es: seq<Event>, i: nat, j: nat)
    requires i <= j <= |es|
    ensures RecordsContinue(StateAt(s, es, i).records, StateAt(s, es, j).records)
    decreases j
  {
    hide Step;
    if i < j {
      RecordsStay(s, es, i, j - 1);
      StepRecords(StateAt(s, es, j - 1), es[j - 1]);
    }
  }

  /** After a call has taken effect, its record is at one place in every later store. */
  lemma {:induction false} RecordedFrom(s: Store, es: seq<Event>, i: nat, j: nat) returns (k: nat)
    requires i < j <= |es| && Executes(StateAt(s, es, i), es[i])
    ensures IsCall(es[i])
    ensures var rs := StateAt(s, es, j).records;
            k < |rs| && SameRecord(RecordOf(es[i], Answer(StateAt(s, es, i), es[i]).value.candidate), rs[k])
  {
    hide Step, Answer;
    k := |StateAt(s, es, i).records|;
    StepRecords(StateAt(s, es, i), es[i]);
    RecordsStay(s, es, i + 1, j);
    assert StateAt(s, es, i + 1) == Step(StateAt(s, es, i), es[i]);
  }

  /** What a call answers depends on its replay, if it is allowed at all. */
  lemma {:induction false} ReplayAnswers(s: Store, e: Event)
    requires IsCall(e)
    ensures var replay := Replay(s, e.request.org, OperationOf(e), e.request.who, e.at);
            !Capable(s.users, e.request.org, e.request.who.actor, MayPerform(OperationOf(e))) ==>
              Answer(s, e) == Some(Refused(Forbidden))
    ensures var replay := Replay(s, e.request.org, OperationOf(e), e.request.who, e.at);
            Capable(s.users, e.request.org, e.request.who.actor, MayPerform(OperationOf(e))) && replay.Some? ==>
              Answer(s, e) == replay
  {
    hide Replay, Capable, Collected, Prepare, Commit, PublicationRefusal, TransitionRefusal, Advanced, PublishedStore,
         FindCandidate;
  }

  /**
   The answer to any later call under the key of a call that took effect: the first response, until
   thirty days after it was given; after that, or for another caller or request, a refusal.
   */
  lemma {:induction false} LaterCallsReplay(s: Store, from: int, es: seq<Event>, i: nat, j: nat)
    requires Inv(s, from) && Clocked(from, es) && i < j < |es|
    requires Executes(StateAt(s, es, i), es[i]) && IsCall(es[i]) && SameKey(es[i], es[j])
    ensures var first, who, t := es[i].request.who, es[j].request.who, StateAt(s, es, j);
            Answer(t, es[j]) == Some(
              if !Capable(t.users, es[j].request.org, who.actor, MayPerform(OperationOf(es[j]))) then Refused(Forbidden)
              else if who.actor != first.actor || who.request != first.request then Refused(KeyReused)
              else if es[i].at + RETENTION <= es[j].at then Refused(KeyExpired)
              else Completed(Answer(StateAt(s, es, i), es[i]).value.candidate, true))
  {
    hide Answer, Capable, StateAt, Replay, RecordsSound, CandidatesSound, ReleasesSound, AssignmentsSound,
         SchedulesSound, Clocked;
    var t, e := StateAt(s, es, j), es[j];
    var k := RecordedFrom(s, es, i, j);
    ReachableIsSound(s, from, es, j);
    RecordedAnswer(t, e.at, k, e.request.who);
    ReplayAnswers(t, e);
  }

  /** No two calls of a run under one key both take effect. */
  lemma {:induction false} ExactlyOnce(s: Store, from: int, es: seq<Event>, i: nat, j: nat)
    requires Inv(s, from) && Clocked(from, es) && i < j < |es|
    requires IsCall(es[i]) && SameKey(es[i], es[j])
    ensures !(Executes(StateAt(s, es, i), es[i]) && Executes(StateAt(s, es, j), es[j]))
  {
    hide Answer, StateAt, Inv, Capable;
    if Executes(StateAt(s, es, i), es[i]) {
      LaterCallsReplay(s, from, es, i, j);
    }
  }
}
